# A read-only SQLite file reader, modelled in Dafny

The reader opens a SQLite database file and answers four commands. Each
command is modelled as a pure function of the file's bytes:

- `.dbinfo`: the page size and the number of schema cells.
- `.tables`: the `tbl_name` of every schema row.
- `select count(*) from <table>`: the number of rows, found by walking the
  table's B-tree.
- `select <columns> from <table>`: one `|`-separated line of text values per
  row.

The file is a `seq<byte>` shorter than 2^31 bytes. Every `Seek` followed by
`ReadExactly` that the reader would let throw becomes an `Err` of a `Result`.
C# `int` arithmetic on values read from the file wraps explicitly through
`I32`.

The model follows the code as written, including where the code departs
from the SQLite Database File Format document:

- The header size of a record is read as one byte, not as a varint.
- The row decoder takes the header-size byte as the first serial type.
- The row decoder numbers text columns only.
- The row decoder moves its content cursor past text columns only.
- Column names come from splitting the stored CREATE TABLE text, not from
  parsing SQL.
- A 1-, 2- or 3-byte root page is not sign-extended.
- Child page numbers are used without the `- 1` the root gets. The walk
  reads page n at byte `pageSize * n`, and callers pass `rootpage - 1`
  for the root (Program.cs:41, 62 and 145). The child numbers read from
  an interior page (Program.cs:169 and 181) are passed on unchanged, so
  every child is read from the page after the one it names. A table of
  more than one page therefore throws, or is miscounted, whenever the
  page after a child does not hold that child's subtree.

Modules, one file each:

| module | file | what it holds |
|---|---|---|
| `Results` | results.dfy | `Result`, the error kinds, and a counted loop that may fail (`Collect`) |
| `ByteAccess` | bytes.dfy | `byte`, `File`, `I32`, big-endian values, and the positioned reads `ReadBytes`, `ReadByteOrEof`, `ReadInt16`, `ReadInt32` |
| `Varint` | varint.dfy | `ReadVarInt`, and a varint encoder as its partner |
| `Text` | text.dfy | `IndexOf`, `Split`, `Join`, `TrimStart`, `TrimEnd` and `Trim` over bytes |
| `Schema` | schema.dfy | `ParseRootPage`, `GetTable` and `GetTables` |
| `SchemaCodec` | schema_codec.dfy | an encoder for schema cells, and the proof that `GetTable` reads them back |
| `BTree` | btree.dfy | `ProcessTable`, the table B-tree walk |
| `Rows` | rows.dfy | the decoding half of `PrintRow` (`RowFields`), and its printed line |
| `RowLayout` | row_layout.dfy | where `RowFields` finds each value, for records with one-byte serial types |
| `Columns` | columns.dfy | the column names of a CREATE TABLE text, and resolving requested names to indices |
| `Queries` | queries.dfy | the four commands |

## Model

| member | source | states |
|---|---|---|
| ByteAccess.ReadBytes | src/Program.cs:75-77 | Seek then ReadExactly of `n` bytes succeeds exactly when the offset is not negative and the bytes lie in the file (a zero-length read always succeeds); it returns exactly those file bytes, and fails with IoError otherwise |
| ByteAccess.ReadByteOrEof | src/Program.cs:108-109 | Stream.ReadByte after a Seek: it fails only for a negative offset; it gives -1 exactly at or past the end of the file, and otherwise the byte there |
| ByteAccess.ReadInt16 | src/Program.cs:73-79 | reads two bytes as an unsigned big-endian value below 65536; it fails with IoError exactly when the two bytes do not lie in the file |
| ByteAccess.ReadInt32 | src/Program.cs:164-167 | four bytes shifted into a C# `int`: the big-endian value wrapped to 32 bits, so it is signed when the first byte is 0x80 or more and equals the unsigned value otherwise; it fails exactly when the bytes do not lie in the file |
| Varint.ReadVarInt | src/Program.cs:81-100 | the nine-byte read fails near the end of the file even for a short varint; the end offset is one past the first byte without the high bit, or the ninth byte; the value is the format's varint value wrapped to 32 bits |
| Varint.ReadVarIntOneByte | src/Program.cs:88-93 | a byte below 0x80 is a whole varint: it decodes to itself and advances the offset by one |
| Varint.ReadVarIntNineBytes | src/Program.cs:96-99 | when the first eight bytes all have the high bit set, the ninth byte contributes all 8 of its bits to the `int` accumulated from the first eight 7-bit groups |
| Varint.ReadVarIntEncoded | src/Program.cs:81-100 | round trip: for any unsigned 64-bit value, reading its varint encoding gives the value wrapped to a C# `int`, and the offset moves past exactly the encoded bytes |
| Varint.ReadVarIntEncodedSmall | src/Program.cs:81-100 | values below 2^31 come back unchanged from their encoding |
| Text.IndexOf | src/Program.cs:57 | -1 exactly when the element is absent; otherwise the position of its first occurrence |
| Text.JoinSplit | src/Program.cs:58 | joining the pieces of a split with the separator restores the text |
| Text.SplitJoin | src/Program.cs:136 | splitting a join of pieces that do not contain the separator gives back exactly the pieces |
| Text.TrimStart | src/Program.cs:58 | the result is a suffix of the text; everything dropped is white space, and the result does not start with white space |
| Text.TrimEnd | src/Program.cs:58 | the result is a prefix of the text; everything dropped is white space, and the result does not end with white space |
| Schema.ParseRootPage | src/Program.cs:249-286 | serial types 0, 8, 9, 12 and 13 read nothing and give (0, 0). Type 1 is one ReadByte, which gives -1 at the end of the file. Types 2 and 3 are unsigned big-endian values. Type 4 is the wrapped 32-bit value. Every other type fails. A successful read reports the serial type as the number of bytes consumed |
| Schema.GetTables | src/Program.cs:190-202 | exactly as many TABLEs as the count at byte 103. Entry j is GetTable of the cell that pointer j (at 108 + 2j) names, in pointer order. It fails exactly when the count or one of the entries cannot be read |
| SchemaCodec.GetTableReadsCell | src/Program.cs:204-247 | round trip: GetTable reads back the type, name, tbl_name, root page and SQL text of a schema cell laid out as SQLite writes one with a root page of 2 or more, a non-NULL SQL text and a payload held wholly on the page (payload-size varint, rowid varint, a record of three texts, the root page as the smallest integer type that holds it, and the SQL text), with a zero row count and no cells |
| BTree.ProcessTable | src/Program.cs:140-188 | a successful walk leaves the schema fields unchanged and only appends cell offsets; the row count grows, with `int` wrap-around, by exactly the number of cells appended |
| BTree.ProcessTableAccepts | src/Program.cs:140-151 | a page number below 1 changes nothing; any other successful walk started on a page that lies in the file and carries the leaf-table or interior-table tag |
| BTree.LeafPage | src/Program.cs:151-161 | on a leaf-table page the walk adds the page's cell count to the row count and appends, in pointer order, the page offset plus each big-endian pointer of the array at byte 8; a pointer array that runs past the file fails |
| BTree.InteriorPage | src/Program.cs:162-183 | on an interior-table page the walk first visits the page at `pageSize * n` for the child number n at byte 8 (the rightmost child, read without the `- 1`, so the page after the one it names). It then visits, in cell-pointer order, the page at `pageSize * n` for each child number n named through the pointer array at byte 12, threading the table through |
| BTree.InteriorPageUnreadable | src/Program.cs:162-176 | on an interior-table page whose rightmost pointer runs past the end of the file the walk throws before visiting any child; a child pointer that cannot be read throws when the loop reaches it |
| BTree.ChildrenInOrder | src/Program.cs:171-182 | the loop over the ordinary children is the in-order walk, for each child number n the pointers lead to, of the page at `pageSize * n` |
| BTree.OtherPageTypesFail | src/Program.cs:184-187 | every other page type throws, the index tags 0x02 and 0x0A among them, even when the page is readable |
| BTree.TableFuel | src/Program.cs:140-188 | a walk that does not run out of fuel gives the same result with any larger bound: the bound never changes the result of a walk that finishes |
| Rows.Lookup | src/Program.cs:136 | succeeds exactly when every requested index was decoded; it gives the decoded values in requested order, once per request; a failure names the first requested index, in requested order, that was not decoded |
| Rows.RowFields | src/Program.cs:113-136 | one value per requested index; a request for index 0 or below (the first declared column, or an unknown name) always throws |
| RowLayout.TextColumnsLayout | src/Program.cs:102-136 | Take a record whose header is one-byte serial types, with the header-size byte counted as the first of them, and any list of requested indices, in any order and with repeats. When every index c has a text value number c (counting only types above 13), the values are those text values, one per request in requested order; text value c is read from the end of the header past the lengths (type - 13) / 2 of the text values before it. Otherwise the lookup fails on the first requested index, in requested order, without a text value. Only the requested text values need lie in the file |
| RowLayout.RecordLoop | src/Program.cs:113-134 | the header loop, started at the header-size byte, collects exactly the requested text numbers that have a text value, each with that value, and stops once it holds as many as there are requests |
| RowLayout.LookupMissing | src/Program.cs:136 | after the loop, the lookup fails on the first requested index that has no text value, even when later indices have one |
| RowLayout.OneTextColumn | src/Program.cs:102-136 | a single request for text column c gives exactly text value c |
| RowLayout.IntegerBeforeText | src/Program.cs:116-134 | a record with a one-byte integer (7) followed by the text "A" prints 7 for text column 1: the content cursor did not move past the integer |
| Rows.PrintedFieldsSplit | src/Program.cs:136-137 | when no value contains the pipe character, the printed line splits back into exactly the row's values, in requested order |
| Columns.FirstToken | src/Program.cs:58 | the token is a prefix of the piece with no space in it, and it ends at the piece's end or at its first space |
| Columns.DeclaredColumnsRoundTrip | src/Program.cs:57-58 | take a CREATE TABLE text `prefix(` then declarations `name` or `name type` joined by commas, each after its own run of white space (a space, or a line break and indentation), then `)`. The names have no comma or white space, the types have no comma, no `(` comes before the list, and the last column has a type. Its column names come back exactly |
| Columns.OneColumnPerLine | src/Program.cs:57-58 | the one-column-per-line text `t(\n\ta b,\n\tc d\n)` gives the names `a` and `c` |
| Columns.UntypedLastColumn | src/Program.cs:57-58 | when the last column has no type, its piece runs into the closing parenthesis, and `)` becomes part of its name; the other names come back unchanged |
| Columns.ResolveColumns | src/Program.cs:60 | one index per requested name. The index is -1 exactly when the name is not declared; otherwise it is the name's first position among the declared columns |
| Queries.GetDbInfo | src/Program.cs:21-27 | succeeds exactly when the file reaches byte 105; the page size is the big-endian value at byte 16 and the table count the one at byte 103 |
| Queries.TableNames | src/Program.cs:28-35 | the tbl_name of every schema entry, in cell-pointer order; it fails exactly when GetTables fails |
| Queries.TableCountAgrees | src/Program.cs:21-35 | when `.tables` succeeds, `.dbinfo` succeeds too, and the count it reports is the number of names `.tables` lists |
| Queries.FindTable | src/Program.cs:39 | `First`: the first TABLE with that tbl_name; NoSuchTable exactly when no TABLE has it |
| Queries.Walk | src/Program.cs:41-43 | the walk of a fresh TABLE keeps its name, and its row count is the number of cells collected, wrapped to an `int` |
| Queries.CountRows | src/Program.cs:36-45 | succeeds exactly when the named table is found and walked; the count is the number of cells the walk collected, wrapped to an `int` |
| Queries.PrintRows | src/Program.cs:63-66 | line i is the printed row of cell i, in walk order; when a row throws, the lines before it are printed and the run ends with that row's error |
| Queries.CountMatchesSelect | src/Program.cs:36-66 | a select that prints every row prints as many lines as `select count(*)` counts |
| Queries.UndeclaredColumnPrintsNothing | src/Program.cs:57-66 | asking for a column the table does not declare prints no line: its index is -1, and the first row already throws |

## Left out

- Command-line parsing (Program.cs:10-18) and the command dispatch on the
  command string (Program.cs:21, 28, 36-38 and 46-50). This includes the
  `LastIndexOf(' ')` and `IndexOf(" from")` cuts and the `Split(", ")` of
  the requested columns. The queries take the table name and the column
  names already split out.
- Console output, including the stderr log line at Program.cs:23. The
  queries return the values and lines they would print.
- Encoding.ASCII (Program.cs:127 and 229): texts stay raw bytes.
  - Bytes of 0x80 and above are not turned into '?'.
  - This applies to printed values, to matching table names and to matching
    column names.
- Exceptions: every C# exception the reader lets escape becomes one of the
  `Error` kinds. An `Error` ends the run just as the exception does.
  Exception types and messages are not modelled.
- ByteAccess.File: the model only takes files shorter than 2^31 bytes, so
  that every offset fits a C# `int`.
- BTree.ProcessTable: the source recurses without bound; the model carries
  a `fuel` depth bound.
  - It fails with `Exhausted`, an error the source never raises. On a
    cyclic tree the source would instead overflow its stack.
  - BTree.TableFuel shows that fuel never changes a result the walk reaches.
- Queries.GetDbInfo: it returns only an `Err` when byte 103 cannot be read.
  The source prints the page-size line (Program.cs:25) before the read at
  Program.cs:26 throws.
- The TABLE field `indexRowids` (Program.cs:297) is never used by the
  reader, so it has no counterpart in `Table`.
- The `table.sql == null` check (Program.cs:54) can never be true, since
  `sql` starts as "" and is only ever set to a string.
- The 512-byte stack buffer (Program.cs:111, 124, 217 and 226) only
  affects performance, not what is read.
- RowLayout.TextColumnsLayout covers records whose serial types are each
  one byte (below 0x80), with the file holding eight more bytes after the
  header for ReadVarInt's nine-byte reads. Multi-byte serial types go
  through the same `RowFields`, but no lemma states their layout. Its
  hypothesis that the header bytes lie in the file is written with
  `Placed`, which PlacedMeans shows is `f[p..p + |types|] == types`.
- SchemaCodec.GetTableReadsCell: its hypothesis that the cell lies at `off`
  is written with `Placed`. It covers the cells SQLite writes for a root
  page from 2 to 2^31 - 1, a non-NULL SQL text, texts shorter than 2^28
  bytes, and a payload held wholly on the page. Root pages 0 (views and
  triggers) and 1, which SQLite writes as serial types 8 and 9, and a NULL
  SQL text are outside it.
- Overflow pages are not followed: PrintRow and GetTable read every text
  value as contiguous bytes from the cell on (Program.cs:124-127 and
  218-229). The model reads them the same way, so for a record whose
  payload spills onto overflow pages it reads the bytes that follow the
  cell on its page, and no lemma relates such a record to its values.
- Columns.DeclaredColumnsRoundTrip: it covers column lists of plain names
  and comma-free types, with no `(` before the list and any run of white
  space before each declaration. A name and its type are separated by one
  space; a type may itself end in white space, such as the line break
  before `)`. Quoted names, table constraints such as `PRIMARY KEY(a, b)`,
  and types with commas such as `DECIMAL(10, 2)` are outside it. So is a
  name separated from its type by a tab, which `Split(' ')` keeps whole.
