/** An encoder for schema cells in the record format of section 2.1 of
    the SQLite Database File Format document (a payload-size varint, a
    rowid varint, then a record of five columns: three texts, the root
    page as an integer of serial type 1 to 4, and the SQL text), and the
    proof that GetTable reads every field back. The cells it writes are
    the ones SQLite writes for a root page of 2 or more, a non-NULL SQL
    text, and a payload held wholly on the page: SQLite stores root pages
    0 and 1 as serial types 8 and 9, the root page of a view or trigger
    is 0, and the SQL text of an automatic index is NULL. */
module SchemaCodec {
  import opened Results
  import opened ByteAccess
  import opened Varint
  import opened Schema

  // ---------------------------------------------------------------------
  // Integer and text columns.

  function Pow256(n: nat): (r: nat)
    ensures r >= 1
  {
    if n == 0 then 1 else 256 * Pow256(n - 1)
  }

  /** `v` as `n` big-endian bytes. */
  function ToBigEndian(v: nat, n: nat): (s: seq<byte>)
    requires v < Pow256(n)
    ensures |s| == n
    ensures BigEndian(s) == v
  {
    if n == 0 then []
    else
      var front := ToBigEndian(v / 256, n - 1);
      var s := front + [(v % 256) as byte];
      assert s[..n - 1] == front;
      s
  }

  /** The integer serial type (1, 2, 3 or 4 bytes) of a root page
      number: the smallest signed width that holds it, which is the type
      SQLite chooses for root pages of 2 or more. */
  function RootSerialType(root: nat): (st: int)
    requires root < Two31
    ensures 1 <= st <= 4 && root < Pow256(st)
  {
    assert Pow256(1) == 0x100 && Pow256(2) == 0x1_0000;
    assert Pow256(3) == 0x100_0000 && Pow256(4) == 0x1_0000_0000;
    if root < 0x80 then 1
    else if root < 0x8000 then 2
    else if root < 0x80_0000 then 3
    else 4
  }

  /** The serial type of a text of `s`'s length. */
  function TextSerial(s: seq<byte>): nat
  {
    13 + 2 * |s|
  }

  // ---------------------------------------------------------------------
  // Records.

  /** The five pieces of a record part, one after another. */
  function Five(ps: seq<seq<byte>>): (r: seq<byte>)
    requires |ps| == 5
    ensures |r| == |ps[0]| + |ps[1]| + |ps[2]| + |ps[3]| + |ps[4]|
  {
    ps[0] + (ps[1] + (ps[2] + (ps[3] + ps[4])))
  }

  /** A row of the schema table, as SQLite stores it. */
  datatype SchemaRow = SchemaRow(kind: seq<byte>, name: seq<byte>, tblName: seq<byte>, rootPage: nat, sql: seq<byte>)

  /** Sizes an encoded row can have in a file smaller than 2^31 bytes. */
  const MaxText: int := 0x1000_0000

  predicate ValidRow(row: SchemaRow)
  {
    && |row.kind| < MaxText && |row.name| < MaxText && |row.tblName| < MaxText
    && |row.sql| < MaxText && row.rootPage < Two31
  }

  /** The serial types of the five columns, each as one varint. */
  function Serials(row: SchemaRow): (es: seq<seq<byte>>)
    requires ValidRow(row)
    ensures |es| == 5 && forall j :: 0 <= j < 5 ==> 1 <= |es[j]| <= 9
  {
    [Encode(TextSerial(row.kind)), Encode(TextSerial(row.name)), Encode(TextSerial(row.tblName)),
     Encode(RootSerialType(row.rootPage)), Encode(TextSerial(row.sql))]
  }

  /** The contents of the five columns; the root page is big-endian in
      the width its serial type names. */
  function Values(row: SchemaRow): (vs: seq<seq<byte>>)
    requires ValidRow(row)
    ensures |vs| == 5 && forall j :: 0 <= j < 5 ==> |vs[j]| < MaxText
  {
    [row.kind, row.name, row.tblName,
     ToBigEndian(row.rootPage, RootSerialType(row.rootPage)), row.sql]
  }

  /** The record header: the header-size byte is not part of it. */
  function RecordHeader(row: SchemaRow): (h: seq<byte>)
    requires ValidRow(row)
    ensures |h| <= 45
  {
    Five(Serials(row))
  }

  /** The content of the record, column by column. */
  function RecordBody(row: SchemaRow): (b: seq<byte>)
    requires ValidRow(row)
    ensures |b| <= 5 * MaxText
  {
    Five(Values(row))
  }

  /** A record of five columns with serial-type bytes `es` and contents
      `vs`: header-size byte, header, content. */
  function RecordOf(es: seq<seq<byte>>, vs: seq<seq<byte>>): (r: seq<byte>)
    requires |es| == 5 && |vs| == 5 && |Five(es)| < 255
    ensures |r| == 1 + |Five(es)| + |Five(vs)|
  {
    [(1 + |Five(es)|) as byte] + (Five(es) + Five(vs))
  }

  /** The record of a schema row. */
  function Record(row: SchemaRow): (r: seq<byte>)
    requires ValidRow(row)
    ensures |r| == 1 + |RecordHeader(row)| + |RecordBody(row)| && |r| < Two64
  {
    RecordOf(Serials(row), Values(row))
  }

  /** The schema cell of a table-leaf page for `row` under `rowid`. */
  function EncodeCell(row: SchemaRow, rowid: nat): seq<byte>
    requires ValidRow(row) && rowid < Two64
  {
    Encode(|Record(row)|) + (Encode(rowid) + Record(row))
  }

  // ---------------------------------------------------------------------
  // Decoding one column.

  /** A text column whose serial type has been read: its text is taken
      from the content, and the content cursor moves past it. */
  lemma TextStep(f: File, cursor: int, dataOffset: int, col: nat, t: Table, next: int, text: seq<byte>,
                 nextData: int, u: Table)
    requires ReadVarInt(f, cursor) == Ok((TextSerial(text), next))
    requires 0 <= dataOffset && nextData == dataOffset + |text| && nextData <= |f|
    requires f[dataOffset..nextData] == text
    requires u == StoreText(t, col, text)
    ensures SchemaColumn(f, cursor, dataOffset, col, t) == Ok((next, nextData, u))
  {
    TextLength(text);
    ReadBytesAt(f, dataOffset, nextData, text);
    I32Exact(nextData);
    TextBranch(f, cursor, dataOffset, col, t, TextSerial(text), next, text, |text|, nextData);
  }

  /** The text branch of a turn of the column loop. */
  lemma TextBranch(f: File, cursor: int, dataOffset: int, col: nat, t: Table, st: int, next: int, text: seq<byte>,
                   len: nat, nextData: int)
    requires ReadVarInt(f, cursor) == Ok((st, next)) && TextSerialType(st)
    requires len == (st - 13) / 2 && ReadBytes(f, dataOffset, len) == Ok(text)
    requires nextData == dataOffset + len && I32(nextData) == nextData
    ensures SchemaColumn(f, cursor, dataOffset, col, t) == Ok((next, nextData, StoreText(t, col, text)))
  {
  }

  /** Bytes `a` lying at `off` up to `end` are what a read there gives. */
  lemma ReadBytesAt(f: File, off: int, end: int, a: seq<byte>)
    requires 0 <= off && end == off + |a| && end <= |f| && f[off..end] == a
    ensures ReadBytes(f, off, |a|) == Ok(a)
  {
  }

  /** The serial type of a text is one GetTable reads as a text, and
      gives back its length. */
  lemma TextLength(text: seq<byte>)
    ensures TextSerialType(TextSerial(text)) && (TextSerial(text) - 13) / 2 == |text|
  {
  }

  /** The root page stored big-endian in its serial type's width is read
      back by ParseRootPage. */
  lemma RootBytes(f: File, dataOffset: int, root: nat)
    requires root < Two31
    requires 0 <= dataOffset && dataOffset + RootSerialType(root) <= |f|
    requires f[dataOffset..dataOffset + RootSerialType(root)] == ToBigEndian(root, RootSerialType(root))
    ensures ParseRootPage(f, dataOffset, RootSerialType(root)) == Ok((root, RootSerialType(root)))
  {
    var st := RootSerialType(root);
    if st == 1 {
      BigEndianOne(f[dataOffset..dataOffset + 1]);
    } else if st == 4 {
      I32Exact(root);
    }
  }

  /** The root-page column whose serial type has been read and whose
      page number ParseRootPage recovers. */
  lemma RootStep(f: File, cursor: int, dataOffset: int, t: Table, next: int, root: int, st: int, nextData: int, u: Table)
    requires 1 <= st <= 4 && ReadVarInt(f, cursor) == Ok((st, next))
    requires ParseRootPage(f, dataOffset, st) == Ok((root, st))
    requires 0 <= nextData < Two31 && nextData == dataOffset + st
    requires u == t.(rootPage := root)
    ensures SchemaColumn(f, cursor, dataOffset, 3, t) == Ok((next, nextData, u))
  {
    RootBranch(f, cursor, dataOffset, t, st, next, (root, st));
    I32Exact(nextData);
  }

  /** The root-page branch of a turn of the column loop. */
  lemma RootBranch(f: File, cursor: int, dataOffset: int, t: Table, st: int, next: int, q: (int, int))
    requires ReadVarInt(f, cursor) == Ok((st, next)) && !TextSerialType(st)
    requires ParseRootPage(f, dataOffset, st) == Ok(q)
    ensures SchemaColumn(f, cursor, dataOffset, 3, t) == Ok((next, I32(dataOffset + q.1), t.(rootPage := q.0)))
  {
  }

  // ---------------------------------------------------------------------
  // Decoding the record.

  /** Column `col`, with serial-type bytes `e` and content `v`, takes the
      TABLE from `t` to `u`: a text stored in its field, or column 3, the
      root page in the smallest integer type that holds it. */
  predicate ColumnFits(e: seq<byte>, v: seq<byte>, col: nat, t: Table, u: Table)
  {
    if col == 3 then
      && 0 <= u.rootPage < Two31
      && e == Encode(RootSerialType(u.rootPage))
      && v == ToBigEndian(u.rootPage, RootSerialType(u.rootPage))
      && u == t.(rootPage := u.rootPage)
    else
      && |v| < MaxText
      && e == Encode(TextSerial(v))
      && u == StoreText(t, col, v)
  }

  /** The serial type a fitting column announces. */
  function ColumnSerial(v: seq<byte>, col: nat, u: Table): int
  {
    if col != 3 then TextSerial(v)
    else if 0 <= u.rootPage < Two31 then RootSerialType(u.rootPage)
    else 0
  }

  /** The serial type of a fitting column is read back from its bytes. */
  lemma ColumnVarint(f: File, c: int, st: nat, e: seq<byte>, next: int)
    requires st < Two31 && e == Encode(st)
    requires 0 <= c && c + 9 <= |f| && next == c + |e| && next <= |f| && f[c..next] == e
    ensures ReadVarInt(f, c) == Ok((st, next))
  {
    ReadVarIntEncodedSmall(f, c, st);
  }

  /** What a fitting column is made of: the bytes of its serial type,
      and its content and TABLE update, per kind of column. */
  lemma FittingParts(e: seq<byte>, v: seq<byte>, col: nat, t: Table, u: Table)
    requires ColumnFits(e, v, col, t, u)
    ensures 0 <= ColumnSerial(v, col, u) < Two31 && e == Encode(ColumnSerial(v, col, u))
    ensures col == 3 ==>
      && 0 <= u.rootPage < Two31 && ColumnSerial(v, col, u) == RootSerialType(u.rootPage)
      && v == ToBigEndian(u.rootPage, RootSerialType(u.rootPage)) && u == t.(rootPage := u.rootPage)
    ensures col != 3 ==> ColumnSerial(v, col, u) == TextSerial(v) && u == StoreText(t, col, v)
  {
  }

  /** Turn `col` of the column loop reads a fitting column laid down at
      `c` and `d`. */
  lemma FittingColumn(f: File, c: int, d: int, col: nat, t: Table, u: Table, e: seq<byte>, v: seq<byte>,
                      next: int, nextData: int)
    requires ColumnFits(e, v, col, t, u)
    requires 0 <= c && c + |e| <= |f| && c + 9 <= |f| && f[c..c + |e|] == e
    requires 0 <= d && d + |v| <= |f| && f[d..d + |v|] == v
    requires next == c + |e| && nextData == d + |v|
    ensures SchemaColumn(f, c, d, col, t) == Ok((next, nextData, u))
  {
    FittingParts(e, v, col, t, u);
    if col == 3 {
      RootColumn(f, c, d, t, u, e, v, u.rootPage, next, nextData);
    } else {
      TextColumn(f, c, d, col, t, u, e, v, next, nextData);
    }
  }

  /** Turn 3 of the column loop reads a root page laid down at `c` and `d`. */
  lemma RootColumn(f: File, c: int, d: int, t: Table, u: Table, e: seq<byte>, v: seq<byte>, root: nat,
                   next: int, nextData: int)
    requires root < Two31 && e == Encode(RootSerialType(root)) && v == ToBigEndian(root, RootSerialType(root))
    requires u == t.(rootPage := root)
    requires 0 <= c && c + 9 <= |f| && next == c + |e| && next <= |f| && f[c..next] == e
    requires 0 <= d && nextData == d + |v| && nextData <= |f| && f[d..nextData] == v
    ensures SchemaColumn(f, c, d, 3, t) == Ok((next, nextData, u))
  {
    var st := RootSerialType(root);
    ColumnVarint(f, c, st, e, next);
    RootBytes(f, d, root);
    RootStep(f, c, d, t, next, root, st, nextData, u);
  }

  /** A text turn of the column loop reads a text laid down at `c` and `d`. */
  lemma TextColumn(f: File, c: int, d: int, col: nat, t: Table, u: Table, e: seq<byte>, v: seq<byte>,
                   next: int, nextData: int)
    requires |v| < MaxText && e == Encode(TextSerial(v)) && u == StoreText(t, col, v)
    requires 0 <= c && c + 9 <= |f| && next == c + |e| && next <= |f| && f[c..next] == e
    requires 0 <= d && nextData == d + |v| && nextData <= |f| && f[d..nextData] == v
    ensures SchemaColumn(f, c, d, col, t) == Ok((next, nextData, u))
  {
    ColumnVarint(f, c, TextSerial(v), e, next);
    TextStep(f, c, d, col, t, next, v, nextData, u);
  }

  /** A turn of the column loop that succeeds hands its results to the
      next turn. */
  lemma ColumnStep(f: File, cursor: int, saved: int, headerSize: int, dataOffset: int,
                   col: nat, t: Table, next: int, nextData: int, u: Table)
    requires col < 5 && cursor - saved < headerSize
    requires SchemaColumn(f, cursor, dataOffset, col, t) == Ok((next, nextData, u))
    ensures SchemaColumns(f, cursor, saved, headerSize, dataOffset, col, t) ==
      SchemaColumns(f, next, saved, headerSize, nextData, col + 1, u)
  {
  }

  /** The bytes of `a + b` laid down at `off` are `a` at `off` and `b`
      right after it. */
  lemma Peel(f: seq<byte>, off: int, a: seq<byte>, b: seq<byte>)
    requires 0 <= off && off + |a| + |b| <= |f|
    requires f[off..off + |a| + |b|] == a + b
    ensures f[off..off + |a|] == a
    ensures f[off + |a|..off + |a| + |b|] == b
  {
    assert f[off..off + |a|] == (a + b)[..|a|];
    assert f[off + |a|..off + |a| + |b|] == (a + b)[|a|..];
  }

  /** A text column below the size bound fits, whatever its field. */
  lemma TextFits(e: seq<byte>, v: seq<byte>, col: nat, t: Table, u: Table)
    requires col != 3 && |v| < MaxText
    requires e == Encode(TextSerial(v)) && u == StoreText(t, col, v)
    ensures ColumnFits(e, v, col, t, u)
  {
  }

  /** A root page below 2^31 fits column 3. */
  lemma RootFits(root: nat, e: seq<byte>, v: seq<byte>, t: Table, u: Table)
    requires root < Two31
    requires e == Encode(RootSerialType(root)) && v == ToBigEndian(root, RootSerialType(root))
    requires u == t.(rootPage := root)
    ensures ColumnFits(e, v, 3, t, u)
  {
  }

  /** Column `j` of a schema row fits. */
  lemma ColumnOfRowFits(row: SchemaRow, j: nat)
    requires ValidRow(row) && j < 5
    ensures ColumnFits(Serials(row)[j], Values(row)[j], j, Tables(row)[j], Tables(row)[j + 1])
  {
    if j == 3 {
      RootFits(row.rootPage, Serials(row)[3], Values(row)[3], Tables(row)[3], Tables(row)[4]);
    } else {
      TextFits(Serials(row)[j], Values(row)[j], j, Tables(row)[j], Tables(row)[j + 1]);
    }
  }

  /** Every column of a schema row fits. */
  lemma RowColumnsFit(row: SchemaRow)
    requires ValidRow(row)
    ensures forall j :: 0 <= j < 5 ==>
      ColumnFits(Serials(row)[j], Values(row)[j], j, Tables(row)[j], Tables(row)[j + 1])
  {
    forall j | 0 <= j < 5
      ensures ColumnFits(Serials(row)[j], Values(row)[j], j, Tables(row)[j], Tables(row)[j + 1])
    {
      ColumnOfRowFits(row, j);
    }
  }

  /** The TABLE before the column loop and after each of its turns. */
  function Tables(row: SchemaRow): (ts: seq<Table>)
    ensures |ts| == 6 && ts[0] == NewTable
    ensures ts[5] == Table(row.kind, row.name, row.tblName, row.sql, row.rootPage, 0, [])
  {
    var t1 := NewTable.(kind := row.kind);
    var t2 := t1.(name := row.name);
    var t3 := t2.(tblName := row.tblName);
    var t4 := t3.(rootPage := row.rootPage);
    [NewTable, t1, t2, t3, t4, t4.(sql := row.sql)]
  }

  /** Where the pieces of a record part start when it is laid down at `c`. */
  function Offsets(c: int, ps: seq<seq<byte>>): (cs: seq<int>)
    requires |ps| == 5
    ensures |cs| == 6 && cs[0] == c && cs[5] == c + |Five(ps)|
    ensures forall j :: 0 <= j < 5 ==> cs[j + 1] == cs[j] + |ps[j]|
  {
    var c1 := c + |ps[0]|;
    var c2 := c1 + |ps[1]|;
    var c3 := c2 + |ps[2]|;
    var c4 := c3 + |ps[3]|;
    [c, c1, c2, c3, c4, c4 + |ps[4]|]
  }

  /** Piece `j` of `ps` lies in `f` from `cs[j]` to `cs[j + 1]`. */
  predicate Piece(f: File, cs: seq<int>, ps: seq<seq<byte>>, j: int)
    requires |ps| == 5 && |cs| == 6 && 0 <= j < 5
  {
    && 0 <= cs[j] && cs[j + 1] == cs[j] + |ps[j]| && cs[j + 1] <= cs[5] <= |f|
    && f[cs[j]..cs[j + 1]] == ps[j]
  }

  /** Every piece of `ps` lies at its offset in `cs`. */
  predicate LaidOut(f: File, cs: seq<int>, ps: seq<seq<byte>>)
  {
    && |ps| == 5 && |cs| == 6 && 0 <= cs[0] <= cs[5] <= |f|
    && forall j :: 0 <= j < 5 ==> Piece(f, cs, ps, j)
  }

  /** The five pieces of a record part laid down one after another. */
  lemma PiecesLaid(f: File, c: int, ps: seq<seq<byte>>)
    requires |ps| == 5
    requires 0 <= c && c + |Five(ps)| <= |f| && f[c..c + |Five(ps)|] == Five(ps)
    ensures LaidOut(f, Offsets(c, ps), ps)
  {
    var cs := Offsets(c, ps);
    var r3 := ps[3] + ps[4];
    var r2 := ps[2] + r3;
    var r1 := ps[1] + r2;
    PeelAt(f, cs[0], cs[1], cs[5], ps[0], r1);
    PeelAt(f, cs[1], cs[2], cs[5], ps[1], r2);
    PeelAt(f, cs[2], cs[3], cs[5], ps[2], r3);
    PeelAt(f, cs[3], cs[4], cs[5], ps[3], ps[4]);
    assert Piece(f, cs, ps, 0) && Piece(f, cs, ps, 1) && Piece(f, cs, ps, 2);
    assert Piece(f, cs, ps, 3) && Piece(f, cs, ps, 4);
    forall j | 0 <= j < 5
      ensures Piece(f, cs, ps, j)
    {
      if j == 0 {
      } else if j == 1 {
      } else if j == 2 {
      } else if j == 3 {
      }
    }
  }

  /** Peel with the offsets of the two parts given. */
  lemma PeelAt(f: seq<byte>, off: int, mid: int, end: int, a: seq<byte>, b: seq<byte>)
    requires 0 <= off && mid == off + |a| && end == mid + |b| && end <= |f|
    requires f[off..end] == a + b
    ensures f[off..mid] == a && f[mid..end] == b
  {
    Peel(f, off, a, b);
  }

  /** Turn `col` reads column `col` of fitting columns laid out one
      after another. */
  lemma ColumnAt(f: File, cs: seq<int>, ds: seq<int>, es: seq<seq<byte>>, vs: seq<seq<byte>>, ts: seq<Table>, col: nat)
    requires LaidOut(f, cs, es) && LaidOut(f, ds, vs) && |ts| == 6 && col < 5
    requires cs[5] + 8 <= |f|
    requires forall j :: 0 <= j < 5 ==> ColumnFits(es[j], vs[j], j, ts[j], ts[j + 1])
    requires forall j :: 0 <= j < 5 ==> |es[j]| >= 1
    ensures cs[col] < cs[col + 1] <= cs[5]
    ensures SchemaColumn(f, cs[col], ds[col], col, ts[col]) == Ok((cs[col + 1], ds[col + 1], ts[col + 1]))
  {
    PieceOf(f, cs, es, col);
    PieceOf(f, ds, vs, col);
    assert ColumnFits(es[col], vs[col], col, ts[col], ts[col + 1]) && |es[col]| >= 1;
    FittingColumn(f, cs[col], ds[col], col, ts[col], ts[col + 1], es[col], vs[col], cs[col + 1], ds[col + 1]);
  }

  /** What a laid-out part says about its piece `j`. */
  lemma PieceOf(f: File, cs: seq<int>, ps: seq<seq<byte>>, j: int)
    requires LaidOut(f, cs, ps) && 0 <= j < 5
    ensures 0 <= cs[j] && cs[j + 1] == cs[j] + |ps[j]| && cs[j + 1] <= cs[5] <= |f|
    ensures f[cs[j]..cs[j + 1]] == ps[j]
  {
    assert Piece(f, cs, ps, j);
  }

  /** From turn `col` on, the column loop stores every remaining column
      when the columns fit and lie one after another in a header that
      started at `saved` and is `hs` bytes long, nine bytes of the file
      still following its last serial type. */
  lemma {:induction false} ColumnsFrom(f: File, saved: int, hs: int, cs: seq<int>, ds: seq<int>,
                                       es: seq<seq<byte>>, vs: seq<seq<byte>>, ts: seq<Table>, col: nat)
    requires LaidOut(f, cs, es) && LaidOut(f, ds, vs) && |ts| == 6 && col <= 5
    requires cs[5] == saved + hs && cs[5] + 8 <= |f|
    requires forall j :: 0 <= j < 5 ==> ColumnFits(es[j], vs[j], j, ts[j], ts[j + 1])
    requires forall j :: 0 <= j < 5 ==> |es[j]| >= 1
    decreases 5 - col
    ensures SchemaColumns(f, cs[col], saved, hs, ds[col], col, ts[col]) == Ok(ts[5])
  {
    if col < 5 {
      ColumnAt(f, cs, ds, es, vs, ts, col);
      ColumnStep(f, cs[col], saved, hs, ds[col], col, ts[col], cs[col + 1], ds[col + 1], ts[col + 1]);
      ColumnsFrom(f, saved, hs, cs, ds, es, vs, ts, col + 1);
    }
  }

  /** The record with serial-type bytes `es` and contents `vs` lies at
      `saved`: the header-size byte, the serial types one after another,
      then the contents one after another. */
  predicate RecordAt(f: File, saved: int, es: seq<seq<byte>>, vs: seq<seq<byte>>)
    requires |es| == 5 && |vs| == 5
  {
    && 0 <= saved < |f| && f[saved] as int == 1 + |Five(es)|
    && LaidOut(f, Offsets(saved + 1, es), es)
    && LaidOut(f, Offsets(saved + 1 + |Five(es)|, vs), vs)
  }

  /** The bytes of a record laid down at `saved` are its header-size
      byte, then its serial types, then its contents. */
  lemma RecordParts(f: File, saved: int, es: seq<seq<byte>>, vs: seq<seq<byte>>)
    requires |es| == 5 && |vs| == 5 && |Five(es)| < 255
    requires 0 <= saved && saved + |RecordOf(es, vs)| <= |f|
    requires f[saved..saved + |RecordOf(es, vs)|] == RecordOf(es, vs)
    ensures saved < |f| && f[saved] as int == 1 + |Five(es)|
    ensures saved + 1 + |Five(es)| + |Five(vs)| <= |f|
    ensures f[saved + 1..saved + 1 + |Five(es)|] == Five(es)
    ensures f[saved + 1 + |Five(es)|..saved + 1 + |Five(es)| + |Five(vs)|] == Five(vs)
  {
    var end := saved + 1 + |Five(es)| + |Five(vs)|;
    var size := (1 + |Five(es)|) as byte;
    assert saved + |RecordOf(es, vs)| == end;
    PeelAt(f, saved, saved + 1, end, [size], Five(es) + Five(vs));
    PeelAt(f, saved + 1, saved + 1 + |Five(es)|, end, Five(es), Five(vs));
    assert f[saved] == f[saved..saved + 1][0] == size;
  }

  /** The header-size byte and the laid-out pieces make the record. */
  lemma LaidRecord(f: File, saved: int, es: seq<seq<byte>>, vs: seq<seq<byte>>)
    requires |es| == 5 && |vs| == 5
    requires 0 <= saved < |f| && f[saved] as int == 1 + |Five(es)|
    requires LaidOut(f, Offsets(saved + 1, es), es)
    requires LaidOut(f, Offsets(saved + 1 + |Five(es)|, vs), vs)
    ensures RecordAt(f, saved, es, vs)
  {
  }

  /** A record laid down at `saved` has its columns laid out. */
  lemma RecordLaid(f: File, saved: int, es: seq<seq<byte>>, vs: seq<seq<byte>>)
    requires |es| == 5 && |vs| == 5 && |Five(es)| < 255
    requires 0 <= saved && saved + |RecordOf(es, vs)| <= |f|
    requires f[saved..saved + |RecordOf(es, vs)|] == RecordOf(es, vs)
    ensures RecordAt(f, saved, es, vs)
  {
    RecordParts(f, saved, es, vs);
    PiecesLaid(f, saved + 1, es);
    PiecesLaid(f, saved + 1 + |Five(es)|, vs);
    LaidRecord(f, saved, es, vs);
  }

  /** The column loop of a record starts at the byte after the
      header-size byte, with the content `hs` bytes past that byte. */
  lemma RecordColumnsFrom(f: File, saved: int, hs: int, c: int, d: int, t0: Table, t: Table)
    requires c == saved + 1 && d == I32(saved + hs) && t0 == NewTable
    requires SchemaColumns(f, c, saved, hs, d, 0, t0) == Ok(t)
    ensures RecordColumns(f, saved, hs) == Ok(t)
  {
  }

  /** The column loop over a record laid out at `saved` with fitting
      columns stores every column. */
  lemma RecordDecoded(f: File, saved: int, es: seq<seq<byte>>, vs: seq<seq<byte>>, ts: seq<Table>)
    requires |es| == 5 && |vs| == 5 && RecordAt(f, saved, es, vs)
    requires saved + 1 + |Five(es)| + 8 <= |f|
    requires |ts| == 6 && ts[0] == NewTable
    requires forall j :: 0 <= j < 5 ==> ColumnFits(es[j], vs[j], j, ts[j], ts[j + 1])
    requires forall j :: 0 <= j < 5 ==> |es[j]| >= 1
    ensures RecordColumns(f, saved, f[saved] as int) == Ok(ts[5])
  {
    var hs := f[saved] as int;
    I32Exact(saved + hs);
    assert I32(saved + hs) == saved + 1 + |Five(es)|;
    var cs, ds := Offsets(saved + 1, es), Offsets(saved + 1 + |Five(es)|, vs);
    ColumnsFrom(f, saved, hs, cs, ds, es, vs, ts, 0);
    RecordColumnsFrom(f, saved, hs, cs[0], ds[0], ts[0], ts[5]);
  }

  /** The three parts `a`, `b`, `r` of a cell `c` laid down at `off`
      lie at `off`, `next` and `saved`. */
  lemma CellParts(f: File, off: int, next: int, saved: int, c: seq<byte>, a: seq<byte>, b: seq<byte>, r: seq<byte>)
    requires c == a + (b + r) && Placed(f, off, c)
    requires next == off + |a| && saved == next + |b|
    ensures Placed(f, off, a) && Placed(f, next, b) && Placed(f, saved, r)
  {
    PlacedSplit(f, off, next, a, b + r);
    PlacedSplit(f, next, saved, b, r);
  }

  /** Bytes `a + b` laid down at `off` are `a` at `off` and `b` at `mid`. */
  lemma PlacedSplit(f: File, off: int, mid: int, a: seq<byte>, b: seq<byte>)
    requires Placed(f, off, a + b) && mid == off + |a|
    ensures Placed(f, off, a) && Placed(f, mid, b)
  {
    var end := mid + |b|;
    PlacedMeans(f, off, a + b);
    PeelAt(f, off, mid, end, a, b);
    PlacedMeans(f, off, a);
    PlacedMeans(f, mid, b);
  }

  /** Where the record header of the cell of `row` at `off` ends: past the
      payload-size and rowid varints, the header-size byte and the serial
      types. */
  function HeaderEnd(off: int, row: SchemaRow, rowid: nat): int
    requires ValidRow(row) && rowid < Two64
  {
    off + |Encode(|Record(row)|)| + |Encode(rowid)| + 1 + |RecordHeader(row)|
  }

  /** The cell of `row` laid down at `off` is two whole varints `a` and
      `b`, at `off` and `next`, followed by the record of `row` at `saved`. */
  lemma CellPieces(f: File, off: int, row: SchemaRow, rowid: nat)
    returns (a: seq<byte>, b: seq<byte>, next: int, saved: int)
    requires ValidRow(row) && rowid < Two64
    requires HeaderEnd(off, row, rowid) + 8 <= |f| && Placed(f, off, EncodeCell(row, rowid))
    ensures WholeVarint(a) && WholeVarint(b) && Placed(f, off, a) && Placed(f, next, b)
    ensures next == off + |a| && saved == next + |b| && next + 9 <= |f|
    ensures saved + 1 + |RecordHeader(row)| + 8 <= |f| && Placed(f, saved, Record(row))
  {
    var r := Record(row);
    a, b := Encode(|r|), Encode(rowid);
    next, saved := off + |a|, off + |a| + |b|;
    assert EncodeCell(row, rowid) == a + (b + r);
    CellParts(f, off, next, saved, EncodeCell(row, rowid), a, b, r);
    EncodeWhole(|r|);
    EncodeWhole(rowid);
  }

  /** GetTable skips the two whole varints `a` and `b` laid down at `off`
      and `next` and runs the column loop of the record at `saved`. */
  lemma CellHead(f: File, off: int, next: int, saved: int, a: seq<byte>, b: seq<byte>)
    requires WholeVarint(a) && WholeVarint(b) && Placed(f, off, a) && Placed(f, next, b)
    requires next == off + |a| && saved == next + |b| && next + 9 <= |f| && saved < |f|
    ensures GetTable(f, off) == RecordColumns(f, saved, f[saved] as int)
  {
    ReadVarIntWhole(f, off, a);
    ReadVarIntWhole(f, next, b);
    HeadFromVarints(f, off, next, saved);
  }

  /** GetTable reads the two leading varints and the header-size byte,
      then runs the column loop of the record. */
  lemma HeadFromVarints(f: File, off: int, next: int, saved: int)
    requires ReadVarInt(f, off).Ok? && ReadVarInt(f, off).value.1 == next
    requires ReadVarInt(f, next).Ok? && ReadVarInt(f, next).value.1 == saved
    requires 0 <= saved < |f|
    ensures GetTable(f, off) == RecordColumns(f, saved, f[saved] as int)
  {
  }

  /** The column loop over the record of `row` laid down at `saved`
      stores every field of the row. */
  lemma RowRecordColumns(f: File, saved: int, row: SchemaRow)
    requires ValidRow(row) && Placed(f, saved, Record(row))
    requires saved + 1 + |RecordHeader(row)| + 8 <= |f|
    ensures saved < |f|
    ensures RecordColumns(f, saved, f[saved] as int) ==
      Ok(Table(row.kind, row.name, row.tblName, row.sql, row.rootPage, 0, []))
  {
    PlacedMeans(f, saved, Record(row));
    RecordLaid(f, saved, Serials(row), Values(row));
    RowColumnsFit(row);
    RecordDecoded(f, saved, Serials(row), Values(row), Tables(row));
  }

  /** The schema cell EncodeCell writes for `row` is read back by GetTable:
      its payload size and rowid are skipped and every field of the row
      is recovered, provided the file holds eight more bytes after the
      record header for ReadVarInt's nine-byte reads of its serial types. */
  lemma GetTableReadsCell(f: File, off: int, row: SchemaRow, rowid: nat)
    requires ValidRow(row) && rowid < Two64
    requires HeaderEnd(off, row, rowid) + 8 <= |f| && Placed(f, off, EncodeCell(row, rowid))
    ensures GetTable(f, off) ==
      Ok(Table(row.kind, row.name, row.tblName, row.sql, row.rootPage, 0, []))
  {
    var a, b, next, saved := CellPieces(f, off, row, rowid);
    CellHead(f, off, next, saved, a, b);
    RowRecordColumns(f, saved, row);
  }
}
