/** ProcessTable: the walk over a table B-tree (section 1.6 of the SQLite
    Database File Format document, "B-tree Pages") that counts rows and
    collects the file offset of every leaf cell.

    The walk as written:
    - page `n` starts at byte `pageSize * n` (wrapped to an `int`). Callers
      pass `rootpage - 1`, but the child page numbers read from interior
      pages are used unchanged;
    - an interior page visits its rightmost child first, then the ordinary
      children in cell-pointer order;
    - only the leaf-table (0x0D) and interior-table (0x05) tags are
      accepted; anything else, the index tags included, throws.
    The source recurses without a bound; the model carries `fuel`, the
    recursion depth it allows, and fails with Exhausted when it runs out. */
module BTree {
  import opened Results
  import opened ByteAccess
  import opened Schema

  const InteriorTable: int := 0x05
  const LeafTable: int := 0x0D

  predicate Int32(x: int)
  {
    -Two31 <= x < Two31
  }

  /** Byte offset of page `pageNumber`, as the `int` product computes it. */
  function PageOffset(pageSize: int, pageNumber: int): int
  {
    I32(pageSize * pageNumber)
  }

  /** `u` is `t` after a walk: the schema fields are untouched, the cells
      of `t` are a prefix of those of `u`, and the row count grew (with
      `int` wrap-around) by exactly the number of cells appended. */
  predicate Extends(t: Table, u: Table)
  {
    && u.kind == t.kind && u.name == t.name && u.tblName == t.tblName
    && u.sql == t.sql && u.rootPage == t.rootPage
    && t.cells <= u.cells
    && u.rowCount == I32(t.rowCount + (|u.cells| - |t.cells|))
  }

  lemma ExtendsTransitive(t: Table, u: Table, v: Table)
    requires Extends(t, u) && Extends(u, v)
    ensures Extends(t, v)
  {
    I32AddWrapped(t.rowCount + (|u.cells| - |t.cells|), |v.cells| - |u.cells|);
  }

  /** Absolute offset of cell `i` of the leaf page at `pageOffset`: its
      cell pointer (the array starts 8 bytes into the page) plus the page
      offset. */
  function LeafCell(f: File, pageOffset: int, i: nat): Result<int>
  {
    var ptr :- ReadInt16(f, pageOffset + 8 + i * 2);
    Ok(I32(pageOffset + ptr))
  }

  /** Child page number of cell `i` of the interior page at `pageOffset`:
      the first four bytes of the cell that the i-th pointer (the array
      starts 12 bytes into the page) names. */
  function ChildPage(f: File, pageOffset: int, i: nat): Result<int>
  {
    var cellOffset :- ReadInt16(f, pageOffset + 12 + i * 2);
    ReadInt32(f, pageOffset + cellOffset)
  }

  function ProcessTable(f: File, pageSize: int, pageNumber: int, t: Table, fuel: nat): (r: Result<Table>)
    requires Int32(t.rowCount)
    decreases fuel, 0
    ensures r.Ok? ==> Extends(t, r.value)
  {
    if pageNumber <= 0 then Ok(t)
    else if fuel == 0 then Err(Exhausted)
    else ProcessPage(f, pageSize, PageOffset(pageSize, pageNumber), t, fuel - 1)
  }

  /** The body of ProcessTable once the page offset is known: read the
      page-type byte and the cell count, then dispatch on the type. */
  function ProcessPage(f: File, pageSize: int, pageOffset: int, t: Table, fuel: nat): (r: Result<Table>)
    requires Int32(t.rowCount)
    decreases fuel, 3
    ensures r.Ok? ==> Extends(t, r.value)
  {
    var tag :- ReadByteOrEof(f, pageOffset);
    var pageType := tag % 256;  // the (byte) cast turns ReadByte's -1 into 0xFF
    var cellCount :- ReadInt16(f, pageOffset + 3);
    if pageType == LeafTable then LeafStep(f, pageOffset, cellCount, t)
    else if pageType == InteriorTable then InteriorStep(f, pageSize, pageOffset, cellCount, t, fuel)
    else
      Err(CorruptPage(pageType))
  }

  /** A leaf-table page: every cell is counted and its offset appended. */
  function LeafStep(f: File, pageOffset: int, cellCount: nat, t: Table): (r: Result<Table>)
    requires 0 <= pageOffset && Int32(t.rowCount)
    ensures r.Ok? ==> Extends(t, r.value)
  {
    var cells :- LeafCells(f, pageOffset, cellCount);
    Ok(t.(rowCount := I32(t.rowCount + cellCount), cells := t.cells + cells))
  }

  /** An interior-table page: the rightmost child (its page number at
      byte 8 of the page), then the ordinary children in order. */
  function InteriorStep(f: File, pageSize: int, pageOffset: int, cellCount: nat, t: Table, fuel: nat): (r: Result<Table>)
    requires Int32(t.rowCount)
    decreases fuel, 2
    ensures r.Ok? ==> Extends(t, r.value)
  {
    var rightmost :- ReadInt32(f, pageOffset + 8);
    var t1 :- ProcessTable(f, pageSize, rightmost, t, fuel);
    var r := ProcessChildren(f, pageSize, pageOffset, 0, cellCount, t1, fuel);
    if r.Ok? then ExtendsTransitive(t, t1, r.value); r else r
  }

  /** The loop over the ordinary children of an interior page. */
  function ProcessChildren(f: File, pageSize: int, pageOffset: int, i: nat, n: nat, t: Table, fuel: nat): (r: Result<Table>)
    requires i <= n
    requires Int32(t.rowCount)
    decreases fuel, 1, n - i
    ensures r.Ok? ==> Extends(t, r.value)
  {
    if i == n then Ok(t)
    else
      var child :- ChildPage(f, pageOffset, i);
      var t1 :- ProcessTable(f, pageSize, child, t, fuel);
      var r := ProcessChildren(f, pageSize, pageOffset, i + 1, n, t1, fuel);
      if r.Ok? then ExtendsTransitive(t, t1, r.value); r else r
  }

  // ---------------------------------------------------------------------
  // What one call does, stated against the page layout.

  /** A walk succeeds only from a page number below 1, which changes
      nothing, or from a page that lies in the file and carries one of
      the two table tags. */
  lemma ProcessTableAccepts(f: File, pageSize: int, pageNumber: int, t: Table, fuel: nat)
    requires Int32(t.rowCount)
    ensures pageNumber <= 0 ==> ProcessTable(f, pageSize, pageNumber, t, fuel) == Ok(t)
    ensures ProcessTable(f, pageSize, pageNumber, t, fuel).Ok? && pageNumber > 0 ==>
      var off := PageOffset(pageSize, pageNumber);
      && 0 <= off && off + 5 <= |f|
      && (f[off] as int == LeafTable || f[off] as int == InteriorTable)
  {
    if pageNumber > 0 && fuel > 0 {
      PageAccepts(f, pageSize, PageOffset(pageSize, pageNumber), t, fuel - 1);
    }
  }

  lemma PageAccepts(f: File, pageSize: int, off: int, t: Table, fuel: nat)
    requires Int32(t.rowCount)
    ensures ProcessPage(f, pageSize, off, t, fuel).Ok? ==>
      && 0 <= off && off + 5 <= |f|
      && (f[off] as int == LeafTable || f[off] as int == InteriorTable)
  {
  }

  /** Every other page type fails, among them the index tags 0x02 and
      0x0A, even when the page is otherwise readable. */
  lemma OtherPageTypesFail(f: File, pageSize: int, pageNumber: int, t: Table, fuel: nat)
    requires Int32(t.rowCount)
    requires pageNumber > 0 && fuel > 0
    requires 0 <= PageOffset(pageSize, pageNumber)
    requires PageOffset(pageSize, pageNumber) + 5 <= |f|
    requires f[PageOffset(pageSize, pageNumber)] as int !in {LeafTable, InteriorTable}
    ensures ProcessTable(f, pageSize, pageNumber, t, fuel) ==
      Err(CorruptPage(f[PageOffset(pageSize, pageNumber)] as int))
  {
    var off := PageOffset(pageSize, pageNumber);
    TableToPage(f, pageSize, pageNumber, t, fuel);
    OtherPageStep(f, pageSize, off, t, fuel - 1);
  }

  /** A positive page number with fuel left is one ProcessPage at the
      page's offset. */
  lemma TableToPage(f: File, pageSize: int, pageNumber: int, t: Table, fuel: nat)
    requires Int32(t.rowCount)
    requires pageNumber > 0 && fuel > 0
    ensures ProcessTable(f, pageSize, pageNumber, t, fuel) ==
      ProcessPage(f, pageSize, PageOffset(pageSize, pageNumber), t, fuel - 1)
  {
  }

  lemma OtherPageStep(f: File, pageSize: int, off: int, t: Table, fuel: nat)
    requires Int32(t.rowCount)
    requires 0 <= off && off + 5 <= |f| && f[off] as int !in {LeafTable, InteriorTable}
    ensures ProcessPage(f, pageSize, off, t, fuel) == Err(CorruptPage(f[off] as int))
  {
    var tag := ReadByteOrEof(f, off);
    assert tag == Ok(f[off] as int) && (f[off] as int) % 256 == f[off] as int;
    assert ReadInt16(f, off + 3).Ok?;
  }

  lemma LeafPageStep(f: File, pageSize: int, off: int, n: nat, t: Table, fuel: nat)
    requires Int32(t.rowCount)
    requires 0 <= off < |f| && f[off] as int == LeafTable && ReadInt16(f, off + 3) == Ok(n)
    ensures ProcessPage(f, pageSize, off, t, fuel) == LeafStep(f, off, n, t)
  {
    var tag := ReadByteOrEof(f, off);
    assert tag == Ok(LeafTable) && LeafTable % 256 == LeafTable;
  }

  /** The cell-pointer array of a leaf page with `n` cells lies in the file. */
  predicate LeafPointersReadable(f: File, off: int, n: int)
  {
    0 <= off && (n <= 0 || off + 8 + 2 * n <= |f|)
  }

  /** The absolute cell offsets of a leaf page: page offset plus each
      big-endian pointer of the array at page byte 8, in array order. */
  function LeafPointers(f: File, off: int, n: nat): (r: seq<int>)
    requires LeafPointersReadable(f, off, n)
    ensures |r| == n
  {
    seq(n, i requires 0 <= i < n => I32(off + BigEndian(f[off + 8 + 2 * i..off + 10 + 2 * i])))
  }

  /** Pointer `i` of a readable array is the i-th leaf pointer. */
  lemma LeafCellInArray(f: File, off: int, n: nat, i: nat)
    requires LeafPointersReadable(f, off, n) && i < n
    ensures LeafCell(f, off, i) == Ok(LeafPointers(f, off, n)[i])
  {
    assert ReadInt16(f, off + 8 + i * 2).Ok?;
  }

  /** The loop over the cells of a leaf page: every pointer of the array
      is read, or the walk fails. */
  function LeafCells(f: File, off: int, n: nat): (r: Result<seq<int>>)
    requires 0 <= off
    ensures r == if LeafPointersReadable(f, off, n) then Ok(LeafPointers(f, off, n)) else Err(IoError)
  {
    var cell := (i: nat) => LeafCell(f, off, i);
    assert forall i: nat :: cell(i) == LeafCell(f, off, i);
    var cs := Collect(0, n, cell);
    if LeafPointersReadable(f, off, n) then
      var ps := LeafPointers(f, off, n);
      assert forall i | 0 <= i < n :: cell(i) == Ok(ps[i]) by {
        forall i | 0 <= i < n
          ensures cell(i) == Ok(ps[i])
        {
          LeafCellInArray(f, off, n, i);
        }
      }
      assert cs.value == ps;
      cs
    else
      assert !cell(n - 1).Ok?;
      cs
  }

  /** One call on a leaf-table page adds the page's cell count to the row
      count and appends exactly that many cell offsets, in pointer order;
      a pointer array that runs past the end of the file fails. */
  lemma LeafPage(f: File, pageSize: int, pageNumber: int, t: Table, fuel: nat)
    requires Int32(t.rowCount)
    requires pageNumber > 0 && fuel > 0
    requires 0 <= PageOffset(pageSize, pageNumber)
    requires PageOffset(pageSize, pageNumber) + 5 <= |f|
    requires f[PageOffset(pageSize, pageNumber)] as int == LeafTable
    ensures
      var off := PageOffset(pageSize, pageNumber);
      var n := BigEndian(f[off + 3..off + 5]);
      ProcessTable(f, pageSize, pageNumber, t, fuel) ==
        if LeafPointersReadable(f, off, n)
        then Ok(t.(rowCount := I32(t.rowCount + n), cells := t.cells + LeafPointers(f, off, n)))
        else Err(IoError)
  {
    var off := PageOffset(pageSize, pageNumber);
    var n := BigEndian(f[off + 3..off + 5]);
    assert ReadInt16(f, off + 3) == Ok(n);
    TableToPage(f, pageSize, pageNumber, t, fuel);
    LeafPageStep(f, pageSize, off, n, t, fuel - 1);
  }

  // ---------------------------------------------------------------------
  // Visit order on interior pages.

  /** Walks the given pages one after another, threading the table
      through: the reference for the order in which subtrees are visited. */
  function ProcessAll(f: File, pageSize: int, pages: seq<int>, t: Table, fuel: nat): (r: Result<Table>)
    requires Int32(t.rowCount)
    ensures r.Ok? ==> Extends(t, r.value)
  {
    if pages == [] then Ok(t)
    else
      var t1 :- ProcessTable(f, pageSize, pages[0], t, fuel);
      var r := ProcessAll(f, pageSize, pages[1..], t1, fuel);
      if r.Ok? then ExtendsTransitive(t, t1, r.value); r else r
  }

  predicate ChildPagesReadable(f: File, off: int, n: nat)
  {
    forall i: nat :: i < n ==> ChildPage(f, off, i).Ok?
  }

  /** The ordinary children of an interior page, in cell-pointer order. */
  function ChildPages(f: File, off: int, n: nat): (r: seq<int>)
    requires ChildPagesReadable(f, off, n)
    ensures |r| == n
  {
    seq(n, i requires 0 <= i < n => ChildPage(f, off, i).value)
  }

  lemma {:induction false} ChildrenInOrder(f: File, pageSize: int, off: int, i: nat, n: nat, t: Table, fuel: nat)
    requires i <= n
    requires Int32(t.rowCount)
    requires ChildPagesReadable(f, off, n)
    decreases n - i
    ensures ProcessChildren(f, pageSize, off, i, n, t, fuel) ==
      ProcessAll(f, pageSize, ChildPages(f, off, n)[i..], t, fuel)
  {
    if i < n {
      var pages := ChildPages(f, off, n)[i..];
      assert pages[0] == ChildPage(f, off, i).value;
      assert pages[1..] == ChildPages(f, off, n)[i + 1..];
      var t1 := ProcessTable(f, pageSize, pages[0], t, fuel);
      if t1.Ok? {
        ChildrenInOrder(f, pageSize, off, i + 1, n, t1.value, fuel);
      }
    }
  }

  /** On an interior-table page whose pointers are all readable, the walk
      visits the rightmost child (bytes 8..12 of the page) first and then
      the ordinary children in cell-pointer order. */
  lemma InteriorPage(f: File, pageSize: int, pageNumber: int, t: Table, fuel: nat, n: nat, rightmost: int)
    requires Int32(t.rowCount)
    requires pageNumber > 0 && fuel > 0
    requires 0 <= PageOffset(pageSize, pageNumber) < |f|
    requires f[PageOffset(pageSize, pageNumber)] as int == InteriorTable
    requires ReadInt16(f, PageOffset(pageSize, pageNumber) + 3) == Ok(n)
    requires ReadInt32(f, PageOffset(pageSize, pageNumber) + 8) == Ok(rightmost)
    requires ChildPagesReadable(f, PageOffset(pageSize, pageNumber), n)
    ensures ProcessTable(f, pageSize, pageNumber, t, fuel) ==
      ProcessAll(f, pageSize, [rightmost] + ChildPages(f, PageOffset(pageSize, pageNumber), n), t, fuel - 1)
  {
    var off := PageOffset(pageSize, pageNumber);
    TableToPage(f, pageSize, pageNumber, t, fuel);
    InteriorPageStep(f, pageSize, off, n, t, fuel - 1);
    InteriorOrder(f, pageSize, off, n, t, fuel - 1, rightmost);
  }

  /** On an interior-table page whose rightmost pointer (bytes 8..12 of
      the page) runs past the end of the file, the walk fails before it
      visits any child; a child pointer that cannot be read fails the
      walk when the loop reaches it. */
  lemma InteriorPageUnreadable(f: File, pageSize: int, pageNumber: int, t: Table, fuel: nat, n: nat)
    requires Int32(t.rowCount)
    requires pageNumber > 0 && fuel > 0
    requires 0 <= PageOffset(pageSize, pageNumber) < |f|
    requires f[PageOffset(pageSize, pageNumber)] as int == InteriorTable
    requires ReadInt16(f, PageOffset(pageSize, pageNumber) + 3) == Ok(n)
    ensures PageOffset(pageSize, pageNumber) + 12 > |f| ==>
      ProcessTable(f, pageSize, pageNumber, t, fuel) == Err(IoError)
    ensures forall i: nat, u: Table ::
      (i < n && Int32(u.rowCount) && ChildPage(f, PageOffset(pageSize, pageNumber), i).Err?) ==>
      ProcessChildren(f, pageSize, PageOffset(pageSize, pageNumber), i, n, u, fuel - 1) == Err(IoError)
  {
    var off := PageOffset(pageSize, pageNumber);
    TableToPage(f, pageSize, pageNumber, t, fuel);
    InteriorPageStep(f, pageSize, off, n, t, fuel - 1);
    forall i: nat, u: Table | i < n && Int32(u.rowCount) && ChildPage(f, off, i).Err?
      ensures ProcessChildren(f, pageSize, off, i, n, u, fuel - 1) == Err(IoError)
    {
      var c := ReadInt16(f, off + 12 + i * 2);
      if c.Ok? {
        assert ReadInt32(f, off + c.value).Err?;
      }
    }
  }

  lemma InteriorPageStep(f: File, pageSize: int, off: int, n: nat, t: Table, fuel: nat)
    requires Int32(t.rowCount)
    requires 0 <= off < |f| && f[off] as int == InteriorTable && ReadInt16(f, off + 3) == Ok(n)
    ensures ProcessPage(f, pageSize, off, t, fuel) == InteriorStep(f, pageSize, off, n, t, fuel)
  {
    var tag := ReadByteOrEof(f, off);
    assert tag == Ok(InteriorTable) && InteriorTable % 256 == InteriorTable;
  }

  /** InteriorStep walks the rightmost child, then the ordinary children. */
  lemma InteriorOrder(f: File, pageSize: int, off: int, n: nat, t: Table, fuel: nat, rightmost: int)
    requires Int32(t.rowCount)
    requires ReadInt32(f, off + 8) == Ok(rightmost) && ChildPagesReadable(f, off, n)
    ensures InteriorStep(f, pageSize, off, n, t, fuel) ==
      ProcessAll(f, pageSize, [rightmost] + ChildPages(f, off, n), t, fuel)
  {
    var pages := [rightmost] + ChildPages(f, off, n);
    assert pages[0] == rightmost;
    assert pages[1..] == ChildPages(f, off, n)[0..];
    var t1 := ProcessTable(f, pageSize, rightmost, t, fuel);
    if t1.Ok? {
      ChildrenInOrder(f, pageSize, off, 0, n, t1.value, fuel);
    }
  }

  // ---------------------------------------------------------------------
  // The fuel bound only cuts walks short.

  /** A walk that did not run out of fuel gives the same result with any
      larger bound: fuel never changes what a finished walk computes. */
  lemma {:induction false} TableFuel(f: File, pageSize: int, pageNumber: int, t: Table, fuel: nat, more: nat)
    requires Int32(t.rowCount) && fuel <= more
    requires ProcessTable(f, pageSize, pageNumber, t, fuel) != Err(Exhausted)
    decreases fuel, 0
    ensures ProcessTable(f, pageSize, pageNumber, t, more) == ProcessTable(f, pageSize, pageNumber, t, fuel)
  {
    if pageNumber > 0 {
      PageFuel(f, pageSize, PageOffset(pageSize, pageNumber), t, fuel - 1, more - 1);
    }
  }

  lemma {:induction false} PageFuel(f: File, pageSize: int, off: int, t: Table, fuel: nat, more: nat)
    requires Int32(t.rowCount) && fuel <= more
    requires ProcessPage(f, pageSize, off, t, fuel) != Err(Exhausted)
    decreases fuel, 3
    ensures ProcessPage(f, pageSize, off, t, more) == ProcessPage(f, pageSize, off, t, fuel)
  {
    var tag := ReadByteOrEof(f, off);
    var cellCount := ReadInt16(f, off + 3);
    if tag.Ok? && tag.value % 256 == InteriorTable && cellCount.Ok? {
      InteriorFuel(f, pageSize, off, cellCount.value, t, fuel, more);
    }
  }

  lemma {:induction false} InteriorFuel(f: File, pageSize: int, off: int, n: nat, t: Table, fuel: nat, more: nat)
    requires Int32(t.rowCount) && fuel <= more
    requires InteriorStep(f, pageSize, off, n, t, fuel) != Err(Exhausted)
    decreases fuel, 2
    ensures InteriorStep(f, pageSize, off, n, t, more) == InteriorStep(f, pageSize, off, n, t, fuel)
  {
    var rightmost := ReadInt32(f, off + 8);
    if rightmost.Ok? {
      TableFuel(f, pageSize, rightmost.value, t, fuel, more);
      var t1 := ProcessTable(f, pageSize, rightmost.value, t, fuel);
      if t1.Ok? {
        ChildrenFuel(f, pageSize, off, 0, n, t1.value, fuel, more);
      }
    }
  }

  lemma {:induction false} ChildrenFuel(f: File, pageSize: int, off: int, i: nat, n: nat, t: Table, fuel: nat, more: nat)
    requires i <= n && Int32(t.rowCount) && fuel <= more
    requires ProcessChildren(f, pageSize, off, i, n, t, fuel) != Err(Exhausted)
    decreases fuel, 1, n - i
    ensures ProcessChildren(f, pageSize, off, i, n, t, more) == ProcessChildren(f, pageSize, off, i, n, t, fuel)
  {
    if i < n {
      var child := ChildPage(f, off, i);
      if child.Ok? {
        TableFuel(f, pageSize, child.value, t, fuel, more);
        var t1 := ProcessTable(f, pageSize, child.value, t, fuel);
        if t1.Ok? {
          ChildrenFuel(f, pageSize, off, i + 1, n, t1.value, fuel, more);
        }
      }
    }
  }
}
