/** The schema catalog: the rows of page 1 that describe every table and
    index, each decoded into a TABLE record. The decoder follows the record
    format of section 2.1 of the SQLite Database File Format document only
    as far as the reader does:
    - the header size is one byte, not a varint;
    - only columns 0..4 are visited, and a column whose serial type is
      neither text nor column 3 does not advance the content cursor;
    - column 3 (the root page) goes through ParseRootPage, which does not
      sign-extend 1-, 2- and 3-byte integers. */
module Schema {
  import opened Results
  import opened ByteAccess
  import opened Varint

  /** The reader's TABLE record. `kind` is the schema row's `type` column;
      text columns are kept as the raw bytes of the file. */
  datatype Table = Table(
    kind: seq<byte>,
    name: seq<byte>,
    tblName: seq<byte>,
    sql: seq<byte>,
    rootPage: int,
    rowCount: int,
    cells: seq<int>)

  /** A TABLE as its constructor leaves it: empty texts, zero counts. */
  const NewTable := Table([], [], [], [], 0, 0, [])

  /** Serial types that ParseRootPage reads as zero without touching the file. */
  predicate ZeroSerialType(st: int)
  {
    st == 0 || st == 8 || st == 9 || st == 12 || st == 13
  }

  /** Reads the integer value of the root-page column; the second
      component is the number of content bytes consumed. */
  function ParseRootPage(f: File, off: int, st: int): (r: Result<(int, int)>)
    ensures ZeroSerialType(st) ==> r == Ok((0, 0))
    ensures !ZeroSerialType(st) && !(1 <= st <= 4) ==> r.Err?
    ensures 1 <= st <= 4 ==> (r.Ok? <==> 0 <= off && (st == 1 || off + st <= |f|))
    ensures r.Ok? && !ZeroSerialType(st) ==> r.value.1 == st
    ensures r.Ok? && st == 1 ==> r.value.0 == (if off < |f| then f[off] as int else -1)
    ensures r.Ok? && (st == 2 || st == 3) ==> r.value.0 == BigEndian(f[off..off + st])
    ensures r.Ok? && st == 4 ==> r.value.0 == I32(BigEndian(f[off..off + 4]))
  {
    if ZeroSerialType(st) then Ok((0, 0))
    else if st == 1 then
      var b :- ReadByteOrEof(f, off);
      Ok((b, 1))
    else if st == 2 then
      var b :- ReadBytes(f, off, 2);
      BigEndianTwo(b);
      Ok((b[0] as int * 0x100 + b[1] as int, 2))
    else if st == 3 then
      var b :- ReadBytes(f, off, 3);
      BigEndianThree(b);
      Ok((b[0] as int * 0x1_0000 + b[1] as int * 0x100 + b[2] as int, 3))
    else if st == 4 then
      var v :- ReadInt32(f, off);
      Ok((v, 4))
    else if off < 0 then
      Err(IoError)  // the Seek before the type dispatch throws first
    else
      Err(UnknownSerialType(st))
  }

  /** Text serial types as GetTable recognises them: odd and at least 13. */
  predicate TextSerialType(st: int)
  {
    st >= 13 && st % 2 == 1
  }

  /** Stores a decoded text in the TABLE field for schema column `col`;
      a text in column 3 is read but kept nowhere. */
  function StoreText(t: Table, col: int, text: seq<byte>): Table
  {
    if col == 0 then t.(kind := text)
    else if col == 1 then t.(name := text)
    else if col == 2 then t.(tblName := text)
    else if col == 4 then t.(sql := text)
    else t
  }

  /** One turn of GetTable's column loop: reads the serial type at
      `cursor` and, for a text or the root page, the value at `dataOffset`.
      The result is the next cursor, the next content offset and the
      updated TABLE. */
  function SchemaColumn(f: File, cursor: int, dataOffset: int, col: nat, t: Table): (r: Result<(int, int, Table)>)
    ensures r.Ok? ==> r.value.2.rowCount == t.rowCount && r.value.2.cells == t.cells
    ensures r.Ok? ==> cursor < r.value.0 <= cursor + 9
  {
    var p :- ReadVarInt(f, cursor);
    var st := p.0;
    if TextSerialType(st) then
      var len := (st - 13) / 2;
      var text :- ReadBytes(f, dataOffset, len);
      Ok((p.1, I32(dataOffset + len), StoreText(t, col, text)))
    else if col == 3 then
      var q :- ParseRootPage(f, dataOffset, st);
      Ok((p.1, I32(dataOffset + q.1), t.(rootPage := q.0)))
    else
      Ok((p.1, dataOffset, t))
  }

  /** The column loop of GetTable: `cursor` walks the serial types of the
      header, which started at `saved` and is `headerSize` bytes long;
      `dataOffset` walks the content. */
  function SchemaColumns(f: File, cursor: int, saved: int, headerSize: int, dataOffset: int, col: nat, t: Table): (r: Result<Table>)
    requires col <= 5
    decreases 5 - col
    ensures r.Ok? ==> r.value.rowCount == t.rowCount && r.value.cells == t.cells
  {
    if col == 5 || cursor - saved >= headerSize then Ok(t)
    else
      var s :- SchemaColumn(f, cursor, dataOffset, col, t);
      SchemaColumns(f, s.0, saved, headerSize, s.1, col + 1, s.2)
  }

  /** The column loop over a record whose header-size byte at `saved`
      reads `headerSize`: the serial types start right after that byte and
      the content `headerSize` bytes after it. */
  function RecordColumns(f: File, saved: int, headerSize: int): (r: Result<Table>)
    ensures r.Ok? ==> r.value.rowCount == 0 && r.value.cells == []
  {
    SchemaColumns(f, saved + 1, saved, headerSize, I32(saved + headerSize), 0, NewTable)
  }

  /** GetTable: decodes the schema cell at `off` (payload-size varint,
      rowid varint, then the record) into a fresh TABLE. */
  function GetTable(f: File, off: int): (r: Result<Table>)
    ensures r.Ok? ==> r.value.rowCount == 0 && r.value.cells == []
  {
    var payloadSize :- ReadVarInt(f, off);
    var rowid :- ReadVarInt(f, payloadSize.1);
    var cellOffset := rowid.1;
    // the header-size byte: Stream.ReadByte, -1 past the end of the file
    var headerSize := ReadByteOrEof(f, cellOffset).value;
    RecordColumns(f, cellOffset, headerSize)
  }

  /** Byte 103 holds the cell count of page 1; its cell-pointer array
      starts at byte 108. */
  const SchemaCountOffset: int := 103
  const SchemaPointersOffset: int := 108

  /** Schema entry `i`: the cell that the i-th pointer of page 1 names. */
  function SchemaEntry(f: File, i: nat): (r: Result<Table>)
    ensures r.Ok? ==> r.value.rowCount == 0 && r.value.cells == []
  {
    var ptr :- ReadInt16(f, SchemaPointersOffset + i * 2);
    GetTable(f, ptr)
  }

  /** GetTables: one TABLE per cell of page 1, in cell-pointer order. */
  function GetTables(f: File): (r: Result<seq<Table>>)
    ensures r.Ok? <==> (ReadInt16(f, SchemaCountOffset).Ok? &&
      forall j: nat :: j < ReadInt16(f, SchemaCountOffset).value ==> SchemaEntry(f, j).Ok?)
    ensures r.Ok? ==> |r.value| == ReadInt16(f, SchemaCountOffset).value
    ensures r.Ok? ==> forall j: nat :: j < |r.value| ==> SchemaEntry(f, j) == Ok(r.value[j])
    ensures r.Ok? ==> forall j :: 0 <= j < |r.value| ==> r.value[j].rowCount == 0 && r.value[j].cells == []
  {
    var n :- ReadInt16(f, SchemaCountOffset);
    var entry := (j: nat) => SchemaEntry(f, j);
    assert forall j: nat :: entry(j) == SchemaEntry(f, j);
    Collect(0, n, entry)
  }
}
