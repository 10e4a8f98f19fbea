/** PrintRow: decodes the requested text columns of one table row and
    renders them as a `|`-separated line. Against the record format of
    section 2.1 of the SQLite Database File Format document, the code as
    written
    - reads the header size as one byte rather than a varint;
    - starts the serial-type loop at the header-size byte itself, so that
      byte is taken for the first serial type;
    - treats every serial type above 13 as text of (type - 13) / 2 bytes,
      so an empty text (type 13) is skipped;
    - numbers the text columns it meets from 1, ignoring every other
      column, and moves the content cursor only past text columns;
    - looks each requested index up among those numbers, so an index that
      no text column received (0, or the -1 of an unknown name) throws. */
module Rows {
  import opened Results
  import opened ByteAccess
  import opened Varint
  import opened Text

  /** The text columns decoded so far, by their 1-based text number. */
  type Decoded = map<int, seq<byte>>

  /** The header loop of PrintRow. `cursor` walks the header, which starts
      at `payloadOffset` and is `headerSize` bytes long; `idx` numbers the
      text columns; `strOffset` is their total length so far. The loop
      stops early once `wanted` columns have been collected. */
  function CollectText(
    f: File, cursor: int, payloadOffset: int, headerSize: int, contentOffset: int,
    needed: set<int>, wanted: int, idx: int, strOffset: int, row: Decoded): (r: Result<Decoded>)
    requires forall k :: k in row ==> k < idx
    decreases payloadOffset + headerSize - cursor, 1
    ensures r.Ok? ==> forall k :: k in row ==> k in r.value && r.value[k] == row[k]
    ensures r.Ok? ==> forall k {:trigger k in r.value} :: k in r.value && k !in row ==> idx <= k && k in needed
  {
    if cursor - payloadOffset >= headerSize then Ok(row)
    else
      var p :- ReadVarInt(f, cursor);
      CollectColumn(f, cursor, p.1, p.0, payloadOffset, headerSize, contentOffset,
                    needed, wanted, idx, strOffset, row)
  }

  /** One pass of the header loop, on the serial type `serialType` read at
      `cursor`; the next one starts at `next`. */
  function CollectColumn(
    f: File, cursor: int, next: int, serialType: int, payloadOffset: int, headerSize: int,
    contentOffset: int, needed: set<int>, wanted: int, idx: int, strOffset: int, row: Decoded)
    : (r: Result<Decoded>)
    requires forall k :: k in row ==> k < idx
    requires cursor - payloadOffset < headerSize && cursor < next
    decreases payloadOffset + headerSize - cursor, 0
    ensures r.Ok? ==> forall k :: k in row ==> k in r.value && r.value[k] == row[k]
    ensures r.Ok? ==> forall k {:trigger k in r.value} :: k in r.value && k !in row ==> idx <= k && k in needed
  {
    if serialType > 13 then
      var len := (serialType - 13) / 2;
      if idx in needed then
        var data :- ReadBytes(f, I32(contentOffset + strOffset), len);
        var row' := row[idx := data];
        if |row'| >= wanted then Ok(row')
        else CollectText(f, next, payloadOffset, headerSize, contentOffset, needed, wanted, idx + 1, I32(strOffset + len), row')
      else
        CollectText(f, next, payloadOffset, headerSize, contentOffset, needed, wanted, idx + 1, I32(strOffset + len), row)
    else
      CollectText(f, next, payloadOffset, headerSize, contentOffset, needed, wanted, idx, strOffset, row)
  }

  /** `columnIndices.Select(col => rowStr[col])`, enumerated in order: the
      first index without a decoded column throws. */
  function Lookup(row: Decoded, columnIndices: seq<int>): (r: Result<seq<seq<byte>>>)
    ensures r.Ok? <==> forall k :: 0 <= k < |columnIndices| ==> columnIndices[k] in row
    ensures r.Ok? ==> |r.value| == |columnIndices|
    ensures r.Ok? ==> forall k :: 0 <= k < |columnIndices| ==> r.value[k] == row[columnIndices[k]]
    ensures r.Err? ==> exists k :: 0 <= k < |columnIndices| && columnIndices[k] !in row &&
                                   (forall j :: 0 <= j < k ==> columnIndices[j] in row) &&
                                   r.error == MissingColumn(columnIndices[k])
  {
    if |columnIndices| == 0 then Ok([])
    else if columnIndices[0] !in row then Err(MissingColumn(columnIndices[0]))
    else
      var rest :- Lookup(row, columnIndices[1..]);
      Ok([row[columnIndices[0]]] + rest)
  }

  /** The values PrintRow prints for the cell at `cellOffset`, one per
      requested index, in requested order: past the payload-size and rowid
      varints the record starts. */
  function RowFields(f: File, cellOffset: int, columnIndices: seq<int>): (r: Result<seq<seq<byte>>>)
    ensures r.Ok? ==> |r.value| == |columnIndices|
    // text columns are numbered from 1, so an index below 1 (the first
    // declared column, or the -1 of an unknown name) never yields data
    ensures (exists k :: 0 <= k < |columnIndices| && columnIndices[k] < 1) ==> r.Err?
  {
    var payloadSize :- ReadVarInt(f, cellOffset);
    var rowid :- ReadVarInt(f, payloadSize.1);
    RecordFields(f, rowid.1, columnIndices)
  }

  /** The requested values of the record at `payloadOffset`: its first byte
      is taken as the header size, and the text values are read from the
      end of the header on. */
  function RecordFields(f: File, payloadOffset: int, columnIndices: seq<int>): (r: Result<seq<seq<byte>>>)
    requires 0 <= payloadOffset
    ensures r.Ok? ==> |r.value| == |columnIndices|
    ensures (exists k :: 0 <= k < |columnIndices| && columnIndices[k] < 1) ==> r.Err?
  {
    var headerSize := ReadByteOrEof(f, payloadOffset).value;
    HeaderFields(f, payloadOffset, headerSize, I32(payloadOffset + headerSize), columnIndices)
  }

  /** The requested values of a record whose header of `headerSize` bytes
      starts at `payloadOffset` and whose values start at `contentOffset`. */
  function HeaderFields(f: File, payloadOffset: int, headerSize: int, contentOffset: int,
                        columnIndices: seq<int>): (r: Result<seq<seq<byte>>>)
    ensures r.Ok? ==> |r.value| == |columnIndices|
    ensures (exists k :: 0 <= k < |columnIndices| && columnIndices[k] < 1) ==> r.Err?
  {
    var needed := set c | c in columnIndices;
    var row :- CollectText(f, payloadOffset, payloadOffset, headerSize, contentOffset,
                           needed, |columnIndices|, 1, 0, map[]);
    Lookup(row, columnIndices)
  }

  /** PrintRow: the printed line, the values joined with `|`. */
  function PrintRow(f: File, cellOffset: int, columnIndices: seq<int>): (r: Result<seq<byte>>)
    ensures r.Ok? <==> RowFields(f, cellOffset, columnIndices).Ok?
    ensures r.Ok? ==> r.value == Join(RowFields(f, cellOffset, columnIndices).value, Pipe)
  {
    var fields :- RowFields(f, cellOffset, columnIndices);
    Ok(Join(fields, Pipe))
  }

  /** When no value contains `|`, the printed line splits back into exactly
      one field per requested index, in requested order. */
  lemma PrintedFieldsSplit(f: File, cellOffset: int, columnIndices: seq<int>)
    requires |columnIndices| >= 1
    requires PrintRow(f, cellOffset, columnIndices).Ok?
    requires forall k :: 0 <= k < |columnIndices| ==>
      Pipe !in RowFields(f, cellOffset, columnIndices).value[k]
    ensures Split(PrintRow(f, cellOffset, columnIndices).value, Pipe) ==
      RowFields(f, cellOffset, columnIndices).value
  {
    SplitJoin(RowFields(f, cellOffset, columnIndices).value, Pipe);
  }
}
