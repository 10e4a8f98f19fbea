/** Where PrintRow finds each value of a row whose record header is made
    of one-byte serial types. The header loop starts at the header-size
    byte itself, so that byte is the first serial type it sees; the values
    it reads are laid out as if only text columns took space in the body. */
module RowLayout {
  import opened Results
  import opened ByteAccess
  import opened Varint
  import opened Rows

  /** The lengths of the text columns that a run of serial types
      describes, in header order: a type above 13 is text of
      (type - 13) / 2 bytes, every other type is passed over. */
  function TextLengths(types: seq<byte>): (r: seq<nat>)
    ensures |r| <= |types|
  {
    if types == [] then []
    else
      var t := types[|types| - 1] as int;
      TextLengths(types[..|types| - 1]) + (if t > 13 then [(t - 13) / 2] else [])
  }

  function Sum(s: seq<nat>): nat
  {
    if s == [] then 0 else Sum(s[..|s| - 1]) + s[|s| - 1]
  }

  /** Text value number `k` (from 1) as PrintRow reads it: the bytes after
      the first k - 1 text lengths, counted from the end of the header. */
  function Field(f: seq<byte>, content: nat, lengths: seq<nat>, k: int): (r: seq<byte>)
    requires 1 <= k <= |lengths| && content + Sum(lengths[..k]) <= |f|
    ensures |r| == lengths[k - 1]
  {
    var prefix := lengths[..k];
    assert prefix[..k - 1] == lengths[..k - 1];
    f[content + Sum(lengths[..k - 1])..content + Sum(prefix)]
  }

  /** The serial types of a header prefix read the text lengths of that
      prefix: one more type adds at most one length at the end. */
  lemma {:induction false} TextLengthsPrefix(types: seq<byte>, i: nat, j: nat)
    requires i <= j <= |types|
    decreases j - i
    ensures |TextLengths(types[..i])| <= |TextLengths(types[..j])|
    ensures TextLengths(types[..j])[..|TextLengths(types[..i])|] == TextLengths(types[..i])
  {
    if i < j {
      TextLengthsPrefix(types, i, j - 1);
      assert types[..j][..j - 1] == types[..j - 1];
    }
  }

  /** One more serial type adds its text length, if it has one. */
  lemma TextLengthsNext(types: seq<byte>, i: nat)
    requires i < |types|
    ensures TextLengths(types[..i + 1]) == TextLengths(types[..i]) +
              (if types[i] > 13 then [(types[i] as int - 13) / 2] else [])
  {
    assert types[..i + 1][..i] == types[..i];
  }

  lemma SumSnoc(s: seq<nat>, n: nat)
    ensures Sum(s + [n]) == Sum(s) + n
  {
    assert (s + [n])[..|s|] == s;
  }

  /** The header byte at `cursor` = p + i is a complete one-byte varint. */
  lemma HeaderByte(f: File, p: int, types: seq<byte>, i: nat, cursor: int, t: int, next: int)
    requires Placed(f, p, types) && p + |types| + 8 <= |f| && i < |types| && cursor == p + i
    requires types[i] < 0x80 && t == types[i] as int && next == cursor + 1
    ensures ReadVarInt(f, cursor) == Ok((t, next))
  {
    PlacedMeans(f, p, types);
    assert f[p..p + |types|][i] == f[cursor];
    ReadVarIntOneByte(f, cursor);
  }

  /** One pass of the header loop reads the serial type at `cursor` and
      hands it on. */
  lemma ReadStep(
    f: File, cursor: int, p: int, h: int, content: int, needed: set<int>, wanted: int,
    idx: int, strOffset: int, row: Decoded, t: int, next: int, rest: Result<Decoded>)
    requires forall k :: k in row ==> k < idx
    requires cursor - p < h && ReadVarInt(f, cursor) == Ok((t, next))
    requires rest == CollectColumn(f, cursor, next, t, p, h, content, needed, wanted, idx, strOffset, row)
    ensures CollectText(f, cursor, p, h, content, needed, wanted, idx, strOffset, row) == rest
  {
  }

  /** A serial type that is not text: nothing is read. */
  lemma SkipStep(
    f: File, cursor: int, next: int, p: int, h: int, content: int, needed: set<int>, wanted: int,
    idx: int, strOffset: int, row: Decoded, t: int, rest: Result<Decoded>)
    requires forall k :: k in row ==> k < idx
    requires cursor - p < h && cursor < next && t <= 13
    requires rest == CollectText(f, next, p, h, content, needed, wanted, idx, strOffset, row)
    ensures CollectColumn(f, cursor, next, t, p, h, content, needed, wanted, idx, strOffset, row) == rest
  {
  }

  /** A text type whose number was not requested: its length is only
      added to the content cursor. */
  lemma PassStep(
    f: File, cursor: int, next: int, p: int, h: int, content: int, needed: set<int>, wanted: int,
    idx: int, strOffset: int, row: Decoded, t: int, strOffset': int, rest: Result<Decoded>)
    requires forall k :: k in row ==> k < idx
    requires cursor - p < h && cursor < next && t > 13
    requires idx !in needed && strOffset' == I32(strOffset + (t - 13) / 2)
    requires rest == CollectText(f, next, p, h, content, needed, wanted, idx + 1, strOffset', row)
    ensures CollectColumn(f, cursor, next, t, p, h, content, needed, wanted, idx, strOffset, row) == rest
  {
  }

  /** A requested text type: its value is read at the content cursor and,
      once `wanted` values are in hand, the loop stops. */
  lemma TakeStop(
    f: File, cursor: int, next: int, p: int, h: int, content: int, needed: set<int>, wanted: int,
    idx: int, strOffset: int, row: Decoded, t: int, data: seq<byte>, row': Decoded)
    requires forall k :: k in row ==> k < idx
    requires cursor - p < h && cursor < next && t > 13
    requires idx in needed && ReadBytes(f, I32(content + strOffset), (t - 13) / 2) == Ok(data)
    requires row' == row[idx := data] && |row'| >= wanted
    ensures CollectColumn(f, cursor, next, t, p, h, content, needed, wanted, idx, strOffset, row) == Ok(row')
  {
  }

  /** A requested text type: its value is read and, unless `wanted`
      values are then in hand, the loop goes on. */
  lemma TakeOn(
    f: File, cursor: int, next: int, p: int, h: int, content: int, needed: set<int>, wanted: int,
    idx: int, strOffset: int, row: Decoded, t: int, data: seq<byte>, row': Decoded, strOffset': int,
    rest: Result<Decoded>)
    requires forall k :: k in row ==> k < idx
    requires cursor - p < h && cursor < next && t > 13
    requires idx in needed && ReadBytes(f, I32(content + strOffset), (t - 13) / 2) == Ok(data)
    requires row' == row[idx := data] && |row'| < wanted && strOffset' == I32(strOffset + (t - 13) / 2)
    requires rest == CollectText(f, next, p, h, content, needed, wanted, idx + 1, strOffset', row')
    ensures CollectColumn(f, cursor, next, t, p, h, content, needed, wanted, idx, strOffset, row) == rest
  {
  }

  /** The number of text columns among the first `i` serial types: the
      loop's text number stands one above it. */
  function Count(types: seq<byte>, i: nat): (r: nat)
    requires i <= |types|
    ensures r <= i
  {
    if i == 0 then 0 else Count(types, i - 1) + (if types[i - 1] > 13 then 1 else 0)
  }

  /** The total length of the text columns among the first `i` serial
      types: where the loop's content cursor stands after them. */
  function Offset(types: seq<byte>, i: nat): nat
    requires i <= |types|
  {
    if i == 0 then 0
    else Offset(types, i - 1) + (if types[i - 1] > 13 then (types[i - 1] as int - 13) / 2 else 0)
  }

  /** The loop's counters agree with the text lengths of the types passed. */
  lemma {:induction false} CountOffset(types: seq<byte>, i: nat)
    requires i <= |types|
    ensures Count(types, i) == |TextLengths(types[..i])|
    ensures Offset(types, i) == Sum(TextLengths(types[..i]))
  {
    if i > 0 {
      CountOffset(types, i - 1);
      TextLengthsNext(types, i - 1);
      var t := types[i - 1] as int;
      var before := TextLengths(types[..i - 1]);
      if t > 13 {
        assert TextLengths(types[..i]) == before + [(t - 13) / 2];
        SumSnoc(before, (t - 13) / 2);
      } else {
        assert TextLengths(types[..i]) == before + [];
        assert before + [] == before;
      }
    }
  }

  lemma {:induction false} CountGrows(types: seq<byte>, i: nat, j: nat)
    requires i <= j <= |types|
    decreases j - i
    ensures Count(types, i) <= Count(types, j)
  {
    if i < j {
      CountGrows(types, i, j - 1);
    }
  }

  /** With serial types below 0x80 no text column is longer than 57
      bytes. */
  lemma {:induction false} OffsetBound(types: seq<byte>, i: nat)
    requires i <= |types| && forall j :: 0 <= j < |types| ==> types[j] < 0x80
    ensures Offset(types, i) <= 64 * i
  {
    if i > 0 {
      OffsetBound(types, i - 1);
      assert types[i - 1] < 0x80;
    }
  }

  /** The header the loop walks: one-byte serial types at `p`, with the
      nine bytes a ReadVarInt of the last one takes in the file, and no
      more of them than a header-size byte counts. */
  predicate Header(f: File, p: int, types: seq<byte>)
  {
    && 1 <= p && |types| < 0x100
    && Placed(f, p, types) && p + |types| + 8 <= |f|
    && (forall j :: 0 <= j < |types| ==> types[j] < 0x80)
  }

  /** `vals[k - 1]` is what the loop's read for the text type at `i` finds,
      when that type is text number k and k is requested. */
  predicate FetchedOne(f: File, types: seq<byte>, content: int, needed: set<int>, vals: seq<seq<byte>>, i: nat)
    requires i < |types|
  {
    types[i] > 13 && Count(types, i) + 1 in needed ==>
      Count(types, i) < |vals| &&
      ReadBytes(f, I32(content + Offset(types, i)), (types[i] as int - 13) / 2) == Ok(vals[Count(types, i)])
  }

  /** FetchedOne for every serial type from the i-th on. */
  predicate FetchedFrom(f: File, types: seq<byte>, content: int, needed: set<int>, vals: seq<seq<byte>>, i: nat)
    requires i <= |types|
    decreases |types| - i
  {
    i < |types| ==> FetchedOne(f, types, content, needed, vals, i) && FetchedFrom(f, types, content, needed, vals, i + 1)
  }

  /** The requested values among the first `n` text columns, by number:
      what the loop has collected once it is past them. */
  function Got(vals: seq<seq<byte>>, needed: set<int>, n: int): Decoded
    requires n <= |vals|
  {
    if n < 1 then map[]
    else
      var before := Got(vals, needed, n - 1);
      if n in needed then before[n := vals[n - 1]] else before
  }

  /** The values collected are those of requested numbers up to `n`. */
  lemma {:induction false} GotKeys(vals: seq<seq<byte>>, needed: set<int>, n: int)
    requires n <= |vals|
    ensures forall k :: k in Got(vals, needed, n) ==> 1 <= k <= n && k in needed
  {
    if n >= 1 {
      GotKeys(vals, needed, n - 1);
    }
  }

  /** The collected values are those of every requested number up to `n`. */
  lemma {:induction false} GotMeans(vals: seq<seq<byte>>, needed: set<int>, n: int)
    requires n <= |vals|
    ensures forall k :: k in needed && 1 <= k <= n ==> k in Got(vals, needed, n)
    ensures forall k :: k in Got(vals, needed, n) ==>
              1 <= k <= n && k in needed && Got(vals, needed, n)[k] == vals[k - 1]
  {
    if n >= 1 {
      GotMeans(vals, needed, n - 1);
    }
  }

  /** A subset at least as large as the whole is the whole. */
  lemma SubsetFull(a: set<int>, b: set<int>)
    requires a <= b && |b| <= |a|
    ensures a == b
  {
    assert a * b == a;
    assert |b - a| == 0;
    assert forall x :: x in b ==> x in a by {
      forall x | x in b
        ensures x in a
      {
        assert x !in b - a;
      }
    }
  }

  /** The distinct indices of a request are no more than the request. */
  lemma {:induction false} DistinctIndices(cs: seq<int>)
    ensures |set c | c in cs| <= |cs|
  {
    if cs != [] {
      var rest := cs[..|cs| - 1];
      DistinctIndices(rest);
      assert (set c | c in cs) == (set c | c in rest) + {cs[|cs| - 1]};
    }
  }

  /** Once as many values are collected as there are requested indices,
      every requested index with a text column has its value. */
  lemma GotAll(vals: seq<seq<byte>>, needed: set<int>, n: nat)
    requires n <= |vals| && |needed| <= |Got(vals, needed, n)|
    ensures Got(vals, needed, n) == Got(vals, needed, |vals|)
  {
    var a := Got(vals, needed, n);
    var b := Got(vals, needed, |vals|);
    GotMeans(vals, needed, n);
    GotMeans(vals, needed, |vals|);
    assert forall k :: k in a.Keys ==> k in needed;
    SubsetFull(a.Keys, needed);
    assert forall k :: k in a <==> k in b;
    assert forall k :: k in a ==> a[k] == b[k];
  }

  /** What the loop works with: the header, one value per text column,
      and no more distinct requested indices than it wants values. */
  predicate Setting(
    f: File, p: int, types: seq<byte>, content: int, needed: set<int>, wanted: int, vals: seq<seq<byte>>)
  {
    && Header(f, p, types)
    && |vals| == Count(types, |types|) && |needed| <= wanted
  }

  /** The loop over the rest of the header from the i-th serial type on,
      with its cursor, text number, content offset and values where the
      first i serial types leave them, ends with the value of every
      requested index that has a text column: either the header runs out,
      or it stops once it holds as many values as there are requested
      indices, by which time it has them all. */
  lemma {:induction false} CollectAll(
    f: File, p: int, types: seq<byte>, content: int, needed: set<int>, wanted: int,
    vals: seq<seq<byte>>, res: Decoded, i: nat, cursor: int, idx: int, off: int, row: Decoded)
    requires Setting(f, p, types, content, needed, wanted, vals) && res == Got(vals, needed, |vals|)
    requires i <= |types| && cursor == p + i && idx == Count(types, i) + 1 && off == Offset(types, i)
    requires FetchedFrom(f, types, content, needed, vals, i)
    requires idx - 1 <= |vals| && row == Got(vals, needed, idx - 1) && forall k :: k in row ==> k < idx
    decreases |types| - i, 3
    ensures CollectText(f, cursor, p, |types|, content, needed, wanted, idx, off, row) == Ok(res)
  {
    if i == |types| {
    } else if types[i] <= 13 {
      CollectSkip(f, p, types, content, needed, wanted, vals, res, i, cursor, idx, off, row);
    } else if idx !in needed {
      CollectPass(f, p, types, content, needed, wanted, vals, res, i, cursor, idx, off, row);
    } else {
      CollectTake(f, p, types, content, needed, wanted, vals, res, i, cursor, idx, off, row);
    }
  }

  /** The i-th serial type is not text: the loop moves on unchanged. */
  lemma {:induction false} CollectSkip(
    f: File, p: int, types: seq<byte>, content: int, needed: set<int>, wanted: int,
    vals: seq<seq<byte>>, res: Decoded, i: nat, cursor: int, idx: int, off: int, row: Decoded)
    requires Setting(f, p, types, content, needed, wanted, vals) && res == Got(vals, needed, |vals|)
    requires i < |types| && cursor == p + i && idx == Count(types, i) + 1 && off == Offset(types, i)
    requires FetchedFrom(f, types, content, needed, vals, i)
    requires idx - 1 <= |vals| && row == Got(vals, needed, idx - 1) && forall k :: k in row ==> k < idx
    requires types[i] <= 13
    decreases |types| - i, 0
    ensures CollectText(f, cursor, p, |types|, content, needed, wanted, idx, off, row) == Ok(res)
  {
    var t := types[i] as int;
    var next := cursor + 1;
    HeaderByte(f, p, types, i, cursor, t, next);
    CollectAll(f, p, types, content, needed, wanted, vals, res, i + 1, next, idx, off, row);
    SkipStep(f, cursor, next, p, |types|, content, needed, wanted, idx, off, row, t, Ok(res));
    ReadStep(f, cursor, p, |types|, content, needed, wanted, idx, off, row, t, next, Ok(res));
  }

  /** Past a text type the text number and the content cursor move on,
      and the cursor stays a C# `int`. */
  lemma TextNext(types: seq<byte>, i: nat, len: int)
    requires i < |types| && |types| < 0x100 && forall j :: 0 <= j < |types| ==> types[j] < 0x80
    requires types[i] > 13 && len == (types[i] as int - 13) / 2
    ensures Count(types, i + 1) == Count(types, i) + 1 && Offset(types, i + 1) == Offset(types, i) + len
    ensures Count(types, i + 1) <= Count(types, |types|)
    ensures I32(Offset(types, i) + len) == Offset(types, i) + len
  {
    OffsetBound(types, i + 1);
    CountGrows(types, i + 1, |types|);
    I32Exact(Offset(types, i) + len);
  }

  /** The i-th serial type is text of a number nobody asked for: the loop
      moves the content cursor past its length. */
  lemma {:induction false} CollectPass(
    f: File, p: int, types: seq<byte>, content: int, needed: set<int>, wanted: int,
    vals: seq<seq<byte>>, res: Decoded, i: nat, cursor: int, idx: int, off: int, row: Decoded)
    requires Setting(f, p, types, content, needed, wanted, vals) && res == Got(vals, needed, |vals|)
    requires i < |types| && cursor == p + i && idx == Count(types, i) + 1 && off == Offset(types, i)
    requires FetchedFrom(f, types, content, needed, vals, i)
    requires idx - 1 <= |vals| && row == Got(vals, needed, idx - 1) && forall k :: k in row ==> k < idx
    requires types[i] > 13 && idx !in needed
    decreases |types| - i, 0
    ensures CollectText(f, cursor, p, |types|, content, needed, wanted, idx, off, row) == Ok(res)
  {
    var t := types[i] as int;
    var next := cursor + 1;
    HeaderByte(f, p, types, i, cursor, t, next);
    TextNext(types, i, (t - 13) / 2);
    var off' := I32(off + (t - 13) / 2);
    assert Got(vals, needed, idx) == row;
    CollectAll(f, p, types, content, needed, wanted, vals, res, i + 1, next, idx + 1, off', row);
    PassStep(f, cursor, next, p, |types|, content, needed, wanted, idx, off, row, t, off', Ok(res));
    ReadStep(f, cursor, p, |types|, content, needed, wanted, idx, off, row, t, next, Ok(res));
  }

  /** The read for a requested text type finds its value, which joins
      the values collected. */
  lemma TakeFacts(
    f: File, types: seq<byte>, content: int, needed: set<int>, vals: seq<seq<byte>>,
    i: nat, idx: int, off: int)
    requires i < |types| && FetchedFrom(f, types, content, needed, vals, i)
    requires types[i] > 13 && idx == Count(types, i) + 1 && idx in needed && off == Offset(types, i)
    ensures 1 <= idx <= |vals| && FetchedFrom(f, types, content, needed, vals, i + 1)
    ensures ReadBytes(f, I32(content + off), (types[i] as int - 13) / 2) == Ok(vals[idx - 1])
    ensures Got(vals, needed, idx) == Got(vals, needed, idx - 1)[idx := vals[idx - 1]]
  {
    assert FetchedOne(f, types, content, needed, vals, i);
  }

  /** The i-th serial type is text of a requested number: its value is
      read, and the loop stops once it holds every requested value. */
  lemma {:induction false} CollectTake(
    f: File, p: int, types: seq<byte>, content: int, needed: set<int>, wanted: int,
    vals: seq<seq<byte>>, res: Decoded, i: nat, cursor: int, idx: int, off: int, row: Decoded)
    requires Setting(f, p, types, content, needed, wanted, vals) && res == Got(vals, needed, |vals|)
    requires i < |types| && cursor == p + i && idx == Count(types, i) + 1 && off == Offset(types, i)
    requires FetchedFrom(f, types, content, needed, vals, i)
    requires idx - 1 <= |vals| && row == Got(vals, needed, idx - 1) && forall k :: k in row ==> k < idx
    requires types[i] > 13 && idx in needed
    decreases |types| - i, 2
    ensures CollectText(f, cursor, p, |types|, content, needed, wanted, idx, off, row) == Ok(res)
  {
    var t := types[i] as int;
    var next := cursor + 1;
    HeaderByte(f, p, types, i, cursor, t, next);
    TakeFacts(f, types, content, needed, vals, i, idx, off);
    var data := vals[idx - 1];
    var row' := row[idx := data];
    if |row'| >= wanted {
      TakeLast(f, p, types, content, needed, wanted, vals, res, cursor, next, t, idx, off, row, data, row');
    } else {
      TakeMore(f, p, types, content, needed, wanted, vals, res, i, cursor, next, t, idx, off, row, data, row');
    }
    ReadStep(f, cursor, p, |types|, content, needed, wanted, idx, off, row, t, next, Ok(res));
  }

  /** The value read is the last one wanted: the loop stops, holding every
      requested value. */
  lemma TakeLast(
    f: File, p: int, types: seq<byte>, content: int, needed: set<int>, wanted: int,
    vals: seq<seq<byte>>, res: Decoded, cursor: int, next: int, t: int, idx: int, off: int,
    row: Decoded, data: seq<byte>, row': Decoded)
    requires 1 <= idx <= |vals| && res == Got(vals, needed, |vals|)
    requires row' == row[idx := data] && row' == Got(vals, needed, idx)
    requires forall k :: k in row ==> k < idx
    requires cursor - p < |types| && cursor < next && t > 13 && idx in needed
    requires ReadBytes(f, I32(content + off), (t - 13) / 2) == Ok(data)
    requires |needed| <= wanted <= |row'|
    ensures CollectColumn(f, cursor, next, t, p, |types|, content, needed, wanted, idx, off, row) == Ok(res)
  {
    GotAll(vals, needed, idx);
    TakeStop(f, cursor, next, p, |types|, content, needed, wanted, idx, off, row, t, data, row');
  }

  /** More values are wanted: the loop moves the content cursor past the
      value and goes on. */
  lemma {:induction false} TakeMore(
    f: File, p: int, types: seq<byte>, content: int, needed: set<int>, wanted: int,
    vals: seq<seq<byte>>, res: Decoded, i: nat, cursor: int, next: int, t: int, idx: int, off: int,
    row: Decoded, data: seq<byte>, row': Decoded)
    requires Setting(f, p, types, content, needed, wanted, vals) && res == Got(vals, needed, |vals|)
    requires i < |types| && cursor == p + i && next == cursor + 1 && t == types[i] as int && t > 13
    requires idx == Count(types, i) + 1 && off == Offset(types, i) && 1 <= idx <= |vals| && idx in needed
    requires FetchedFrom(f, types, content, needed, vals, i + 1)
    requires row' == row[idx := data] && row' == Got(vals, needed, idx)
    requires forall k :: k in row ==> k < idx
    requires ReadBytes(f, I32(content + off), (t - 13) / 2) == Ok(data) && |row'| < wanted
    decreases |types| - i, 1
    ensures CollectColumn(f, cursor, next, t, p, |types|, content, needed, wanted, idx, off, row) == Ok(res)
  {
    TakeRest(f, p, types, content, needed, wanted, vals, res, i, next, t, idx, off, row');
    TakeOn(f, cursor, next, p, |types|, content, needed, wanted, idx, off, row, t, data, row',
           I32(off + (t - 13) / 2), Ok(res));
  }

  /** More values are wanted: past the value the loop goes on with the
      next text number and the content cursor past the value. */
  lemma {:induction false} TakeRest(
    f: File, p: int, types: seq<byte>, content: int, needed: set<int>, wanted: int,
    vals: seq<seq<byte>>, res: Decoded, i: nat, next: int, t: int, idx: int, off: int, row': Decoded)
    requires Setting(f, p, types, content, needed, wanted, vals) && res == Got(vals, needed, |vals|)
    requires i < |types| && next == p + i + 1 && t == types[i] as int && t > 13
    requires idx == Count(types, i) + 1 && idx <= |vals| && off == Offset(types, i) && row' == Got(vals, needed, idx)
    requires forall k :: k in row' ==> k < idx + 1
    requires FetchedFrom(f, types, content, needed, vals, i + 1)
    decreases |types| - i, 0
    ensures CollectText(f, next, p, |types|, content, needed, wanted, idx + 1, I32(off + (t - 13) / 2), row') == Ok(res)
  {
    TextNext(types, i, (t - 13) / 2);
    CollectAll(f, p, types, content, needed, wanted, vals, res, i + 1, next, idx + 1, I32(off + (t - 13) / 2), row');
  }

  /** The value whose length ends a prefix of the lengths is what a read
      of that length finds where the prefix's other lengths end. */
  lemma FieldAt(f: File, content: nat, all: seq<nat>, done: seq<nat>, len: nat, c: int, start: int)
    requires c == |done| + 1 <= |all| && all[..c] == done + [len] && content + Sum(all[..c]) <= |f|
    requires start == content + Sum(done)
    ensures ReadBytes(f, start, len) == Ok(Field(f, content, all, c))
  {
    assert all[..c][..c - 1] == all[..c - 1];
    assert (done + [len])[..c - 1] == done;
    SumSnoc(done, len);
  }

  /** The text values, each as far as it lies in the file. */
  function TextValues(f: File, content: nat, all: seq<nat>): (r: seq<seq<byte>>)
    ensures |r| == |all|
    ensures forall k :: 1 <= k <= |all| && content + Sum(all[..k]) <= |f| ==>
              r[k - 1] == Field(f, content, all, k)
  {
    seq(|all|, j requires 0 <= j < |all| =>
      if content + Sum(all[..j + 1]) <= |f| then Field(f, content, all, j + 1) else [])
  }

  /** The text values up to and including the one of the text type at
      `i` are those of the types before it, then its own length. */
  lemma TextPrefix(types: seq<byte>, i: nat)
    requires i < |types| && types[i] > 13
    ensures var all := TextLengths(types);
      && Count(types, i) < |all|
      && all[..Count(types, i) + 1] == TextLengths(types[..i]) + [(types[i] as int - 13) / 2]
      && Offset(types, i) == Sum(TextLengths(types[..i]))
  {
    CountOffset(types, i);
    TextLengthsNext(types, i);
    TextLengthsPrefix(types, i + 1, |types|);
    assert types[..|types|] == types;
  }

  /** The read for the text type at `i`, when it lies in the file, finds
      its text value. */
  lemma FetchedAt(f: File, types: seq<byte>, content: nat, i: nat)
    requires i < |types| && types[i] > 13
    requires var all := TextLengths(types);
      Count(types, i) < |all| && content + Sum(all[..Count(types, i) + 1]) <= |f|
    ensures var all := TextLengths(types);
      ReadBytes(f, I32(content + Offset(types, i)), (types[i] as int - 13) / 2) ==
        Ok(TextValues(f, content, all)[Count(types, i)])
  {
    var all := TextLengths(types);
    TextPrefix(types, i);
    I32Exact(content + Offset(types, i));
    FieldAt(f, content, all, TextLengths(types[..i]), (types[i] as int - 13) / 2,
            Count(types, i) + 1, content + Offset(types, i));
  }

  /** The read for the text type at `i`, if its number is requested,
      finds its text value. */
  lemma FetchedOneAt(f: File, types: seq<byte>, content: nat, cs: seq<int>, vals: seq<seq<byte>>, i: nat)
    requires i < |types| && vals == TextValues(f, content, TextLengths(types))
    requires forall k :: 0 <= k < |cs| && 1 <= cs[k] <= |TextLengths(types)| ==>
               content + Sum(TextLengths(types)[..cs[k]]) <= |f|
    ensures FetchedOne(f, types, content, (set c | c in cs), vals, i)
  {
    if types[i] > 13 && Count(types, i) + 1 in (set c | c in cs) {
      var k :| 0 <= k < |cs| && cs[k] == Count(types, i) + 1;
      CountBelow(types, i);
      assert 1 <= cs[k] <= |TextLengths(types)|;
      FetchedAt(f, types, content, i);
    }
  }

  /** A text type's number is within the text values. */
  lemma CountBelow(types: seq<byte>, i: nat)
    requires i < |types| && types[i] > 13
    ensures Count(types, i) < |TextLengths(types)|
  {
    CountGrows(types, i + 1, |types|);
    CountOffset(types, |types|);
    assert types[..|types|] == types;
  }

  /** Every requested text value the file holds is where the loop reads
      it. */
  lemma {:induction false} FetchedAll(f: File, types: seq<byte>, content: nat, cs: seq<int>, vals: seq<seq<byte>>, i: nat)
    requires i <= |types| && vals == TextValues(f, content, TextLengths(types))
    requires forall k :: 0 <= k < |cs| && 1 <= cs[k] <= |TextLengths(types)| ==>
               content + Sum(TextLengths(types)[..cs[k]]) <= |f|
    decreases |types| - i
    ensures FetchedFrom(f, types, content, (set c | c in cs), vals, i)
  {
    if i < |types| {
      FetchedOneAt(f, types, content, cs, vals, i);
      FetchedAll(f, types, content, cs, vals, i + 1);
    }
  }

  /** The payload-size and rowid varints of the cell at `cellOffset` end
      at `p`, where the record starts. */
  predicate PayloadAt(f: File, cellOffset: int, p: int)
  {
    && ReadVarInt(f, cellOffset).Ok?
    && ReadVarInt(f, ReadVarInt(f, cellOffset).value.1).Ok?
    && ReadVarInt(f, ReadVarInt(f, cellOffset).value.1).value.1 == p
  }

  /** A requested index is among the numbers the loop collected exactly
      when there is a text column of that number, whose value it holds. */
  lemma GotIndices(vals: seq<seq<byte>>, cs: seq<int>)
    ensures var row := Got(vals, (set c | c in cs), |vals|);
      forall k :: 0 <= k < |cs| ==>
        (cs[k] in row <==> 1 <= cs[k] <= |vals|) && (cs[k] in row ==> row[cs[k]] == vals[cs[k] - 1])
  {
    GotMeans(vals, (set c | c in cs), |vals|);
  }

  /** Every requested index has a text column: each gets its value, in
      requested order. */
  lemma LookupFound(vals: seq<seq<byte>>, cs: seq<int>)
    requires forall k :: 0 <= k < |cs| ==> 1 <= cs[k] <= |vals|
    ensures Lookup(Got(vals, (set c | c in cs), |vals|), cs) ==
              Ok(seq(|cs|, k requires 0 <= k < |cs| && 1 <= cs[k] <= |vals| => vals[cs[k] - 1]))
  {
    var row := Got(vals, (set c | c in cs), |vals|);
    GotIndices(vals, cs);
    var s := seq(|cs|, k requires 0 <= k < |cs| && 1 <= cs[k] <= |vals| => vals[cs[k] - 1]);
    var r := Lookup(row, cs);
    assert forall k :: 0 <= k < |cs| ==> cs[k] in row;
    assert r.Ok? && |r.value| == |s|;
    assert forall k :: 0 <= k < |cs| ==> r.value[k] == s[k];
    assert r.value == s;
  }

  /** The first requested index without a text column is the one the
      lookup fails on. */
  lemma LookupMissing(vals: seq<seq<byte>>, cs: seq<int>, k0: int)
    requires 0 <= k0 < |cs| && !(1 <= cs[k0] <= |vals|)
    requires forall j :: 0 <= j < k0 ==> 1 <= cs[j] <= |vals|
    ensures Lookup(Got(vals, (set c | c in cs), |vals|), cs) == Err(MissingColumn(cs[k0]))
  {
    var row := Got(vals, (set c | c in cs), |vals|);
    GotIndices(vals, cs);
    assert cs[k0] !in row;
    var r := Lookup(row, cs);
    var k :| 0 <= k < |cs| && cs[k] !in row && (forall j :: 0 <= j < k ==> cs[j] in row) &&
             r.error == MissingColumn(cs[k]);
    assert k == k0;
  }

  /** Past the payload-size and rowid varints PrintRow reads the record
      at `p`. */
  lemma PayloadRecord(f: File, cellOffset: int, p: int, columnIndices: seq<int>)
    requires PayloadAt(f, cellOffset, p)
    ensures RowFields(f, cellOffset, columnIndices) == RecordFields(f, p, columnIndices)
  {
  }

  /** The header size and content offset RecordFields works from. */
  lemma HeaderSizeStep(f: File, p: int, h: int, content: int, columnIndices: seq<int>)
    requires ReadByteOrEof(f, p) == Ok(h) && content == p + h && I32(content) == content
    ensures RecordFields(f, p, columnIndices) == HeaderFields(f, p, h, content, columnIndices)
  {
  }

  /** The loop looks for the distinct requested indices, and stops at as
      many values as there are requested indices. */
  lemma HeaderLookup(f: File, p: int, h: int, content: int, cs: seq<int>, row: Decoded)
    requires CollectText(f, p, p, h, content, (set c | c in cs), |cs|, 1, 0, map[]) == Ok(row)
    ensures HeaderFields(f, p, h, content, cs) == Lookup(row, cs)
  {
  }

  /** At the start of the header the loop has read nothing, and what it
      works with holds. */
  lemma LoopStart(f: File, p: int, types: seq<byte>, content: nat, cs: seq<int>, vals: seq<seq<byte>>)
    requires Header(f, p, types) && vals == TextValues(f, content, TextLengths(types))
    requires forall k :: 0 <= k < |cs| && 1 <= cs[k] <= |TextLengths(types)| ==>
               content + Sum(TextLengths(types)[..cs[k]]) <= |f|
    ensures Setting(f, p, types, content, (set c | c in cs), |cs|, vals)
    ensures FetchedFrom(f, types, content, (set c | c in cs), vals, 0)
    ensures Count(types, 0) == 0 && Offset(types, 0) == 0 && Got(vals, (set c | c in cs), 0) == map[]
  {
    FetchedAll(f, types, content, cs, vals, 0);
    CountOffset(types, |types|);
    assert types[..|types|] == types;
    DistinctIndices(cs);
  }

  /** The loop from the start of the header yields the value of every
      requested index that has a text column. */
  lemma RecordLoop(f: File, p: int, types: seq<byte>, content: nat, cs: seq<int>, vals: seq<seq<byte>>)
    requires Header(f, p, types) && vals == TextValues(f, content, TextLengths(types))
    requires forall k :: 0 <= k < |cs| && 1 <= cs[k] <= |TextLengths(types)| ==>
               content + Sum(TextLengths(types)[..cs[k]]) <= |f|
    ensures CollectText(f, p, p, |types|, content, (set c | c in cs), |cs|, 1, 0, map[]) ==
              Ok(Got(vals, (set c | c in cs), |vals|))
  {
    var needed := set c | c in cs;
    LoopStart(f, p, types, content, cs, vals);
    CollectAll(f, p, types, content, needed, |cs|, vals, Got(vals, needed, |vals|), 0, p, 1, 0, map[]);
  }

  /** The text values, looked up by requested index. */
  lemma ValuesLookup(f: File, content: nat, all: seq<nat>, cs: seq<int>)
    requires forall k :: 0 <= k < |cs| && 1 <= cs[k] <= |all| ==> content + Sum(all[..cs[k]]) <= |f|
    requires forall k :: 0 <= k < |cs| ==> 1 <= cs[k] <= |all|
    ensures var vals := TextValues(f, content, all);
      seq(|cs|, k requires 0 <= k < |cs| && 1 <= cs[k] <= |vals| => vals[cs[k] - 1]) ==
      seq(|cs|, k requires 0 <= k < |cs| && 1 <= cs[k] <= |all| => Field(f, content, all, cs[k]))
  {
  }

  /** PrintRow's values for a record whose header is `types` are the
      lookup of the request in the text values the loop collects. */
  lemma RowLookup(f: File, cellOffset: int, cs: seq<int>, p: int, types: seq<byte>, content: nat)
    requires PayloadAt(f, cellOffset, p)
    requires Header(f, p, types) && |types| == f[p] as int && content == p + |types|
    requires forall k :: 0 <= k < |cs| && 1 <= cs[k] <= |TextLengths(types)| ==>
               content + Sum(TextLengths(types)[..cs[k]]) <= |f|
    ensures var vals := TextValues(f, content, TextLengths(types));
      RowFields(f, cellOffset, cs) == Lookup(Got(vals, (set c | c in cs), |vals|), cs)
  {
    var vals := TextValues(f, content, TextLengths(types));
    var row := Got(vals, (set c | c in cs), |vals|);
    I32Exact(content);
    RecordLoop(f, p, types, content, cs, vals);
    PayloadRecord(f, cellOffset, p, cs);
    HeaderSizeStep(f, p, |types|, content, cs);
    HeaderLookup(f, p, |types|, content, cs, row);
  }

  /** For a record whose header is `types` (one-byte serial types, the
      first being the header-size byte itself), PrintRow's values for the
      indices `cs` are, in requested order and once per request, text
      value number cs[k], read from the end of the header past the lengths
      of the text values before it; when an index has no text value of
      its number, the lookup fails on the first such index. Only the
      requested text values need to lie in the file. */
  lemma TextColumnsLayout(f: File, cellOffset: int, cs: seq<int>, p: int, types: seq<byte>, content: nat)
    requires PayloadAt(f, cellOffset, p)
    requires Placed(f, p, types) && p + |types| + 8 <= |f| && |types| == f[p] as int
    requires forall j :: 0 <= j < |types| ==> types[j] < 0x80
    requires content == p + |types|
    requires forall k :: 0 <= k < |cs| && 1 <= cs[k] <= |TextLengths(types)| ==>
               content + Sum(TextLengths(types)[..cs[k]]) <= |f|
    ensures
      var lengths := TextLengths(types);
      (forall k :: 0 <= k < |cs| ==> 1 <= cs[k] <= |lengths|) ==>
        RowFields(f, cellOffset, cs) ==
          Ok(seq(|cs|, k requires 0 <= k < |cs| && 1 <= cs[k] <= |lengths| => Field(f, content, lengths, cs[k])))
    ensures
      var lengths := TextLengths(types);
      forall k0 :: 0 <= k0 < |cs| && !(1 <= cs[k0] <= |lengths|) &&
                   (forall j :: 0 <= j < k0 ==> 1 <= cs[j] <= |lengths|) ==>
        RowFields(f, cellOffset, cs) == Err(MissingColumn(cs[k0]))
  {
    var all := TextLengths(types);
    var vals := TextValues(f, content, all);
    RowLookup(f, cellOffset, cs, p, types, content);
    if forall k :: 0 <= k < |cs| ==> 1 <= cs[k] <= |all| {
      LookupFound(vals, cs);
      ValuesLookup(f, content, all, cs);
    }
    forall k0 | 0 <= k0 < |cs| && !(1 <= cs[k0] <= |all|) && (forall j :: 0 <= j < k0 ==> 1 <= cs[j] <= |all|)
      ensures RowFields(f, cellOffset, cs) == Err(MissingColumn(cs[k0]))
    {
      LookupMissing(vals, cs, k0);
    }
  }

  /** A cell whose record header [3, 1, 15] declares a one-byte integer
      (7) and then the one-byte text "A". */
  const IntThenText: File := [6, 1, 3, 1, 15, 7, 65, 0, 0, 0, 0, 0, 0, 0, 0]

  lemma IntThenTextPlaced()
    ensures PayloadAt(IntThenText, 0, 2) && Placed(IntThenText, 2, [3, 1, 15])
  {
    var f := IntThenText;
    ReadVarIntOneByte(f, 0);
    ReadVarIntOneByte(f, 1);
    PlacedMeans(f, 2, [3, 1, 15]);
    assert f[2..5] == [3, 1, 15];
  }

  lemma IntThenTextLengths()
    ensures TextLengths([3, 1, 15]) == [1] && Sum([1][..1]) == 1
  {
    var types: seq<byte> := [3, 1, 15];
    TextLengthsNext(types, 0);
    TextLengthsNext(types, 1);
    TextLengthsNext(types, 2);
    assert types[..0] == [] && types[..3] == types;
    assert [1][..0] == [] && [1][..1] == [1];
  }

  lemma IntThenTextField()
    requires Sum([1][..1]) == 1
    ensures Field(IntThenText, 5, [1], 1) == [7]
  {
    var lengths: seq<nat> := [1];
    assert lengths[..0] == [] && lengths[..1] == lengths;
    assert IntThenText[5..6] == [7];
  }

  lemma IntThenTextA()
    ensures IntThenText[6..7] == [65]
  {
    assert IntThenText[6] == 65;
  }

  /** One requested index that has a text column: its value alone. */
  lemma OneTextColumn(f: File, cellOffset: int, c: int, p: int, types: seq<byte>, content: nat)
    requires PayloadAt(f, cellOffset, p)
    requires Placed(f, p, types) && p + |types| + 8 <= |f| && |types| == f[p] as int
    requires forall j :: 0 <= j < |types| ==> types[j] < 0x80
    requires content == p + |types|
    requires 1 <= c <= |TextLengths(types)| && content + Sum(TextLengths(types)[..c]) <= |f|
    ensures RowFields(f, cellOffset, [c]) == Ok([Field(f, content, TextLengths(types), c)])
  {
    var lengths := TextLengths(types);
    assert forall k :: 0 <= k < |[c]| ==> 1 <= [c][k] <= |lengths|;
    TextColumnsLayout(f, cellOffset, [c], p, types, content);
    var s := seq(1, k requires 0 <= k < 1 && 1 <= [c][k] <= |lengths| => Field(f, content, lengths, [c][k]));
    assert s == [Field(f, content, lengths, c)];
  }

  /** An integer column before a text column: the value read for text
      column 1 is the integer's byte, not the text "A" after it, because
      the content cursor moves only past text columns. */
  lemma IntegerBeforeText()
    ensures IntThenText[6..7] == [65] && RowFields(IntThenText, 0, [1]) == Ok([[7]])
  {
    IntThenTextPlaced();
    IntThenTextLengths();
    OneTextColumn(IntThenText, 0, 1, 2, [3, 1, 15], 5);
    IntThenTextField();
    IntThenTextA();
  }
}
