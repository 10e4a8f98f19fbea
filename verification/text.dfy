/** The string helpers the reader leans on (IndexOf, Split, Join, Trim),
    over the raw bytes of ASCII text. */
module Text {
  import opened ByteAccess

  const Comma: byte := 0x2C
  const Space: byte := 0x20
  const Pipe: byte := 0x7C
  const OpenParen: byte := 0x28
  const CloseParen: byte := 0x29

  /** char.IsWhiteSpace on ASCII: tab, line feed, vertical tab, form feed,
      carriage return and space. */
  predicate IsWhiteSpace(b: byte)
  {
    0x09 <= b <= 0x0D || b == Space
  }

  /** Array.IndexOf / string.IndexOf: the first position of `x`, or -1. */
  function IndexOf<T(==)>(s: seq<T>, x: T): (r: int)
    ensures r == -1 <==> x !in s
    ensures r != -1 ==> 0 <= r < |s| && s[r] == x && x !in s[..r]
  {
    if |s| == 0 then -1
    else if s[0] == x then 0
    else
      var k := IndexOf(s[1..], x);
      assert s[1..][..if k == -1 then 0 else k] == s[1..if k == -1 then 1 else k + 1];
      if k == -1 then -1 else k + 1
  }

  /** string.Split(sep): the pieces between separators, empty ones kept. */
  function Split(s: seq<byte>, sep: byte): (r: seq<seq<byte>>)
    decreases |s|
    ensures |r| >= 1
    ensures forall k :: 0 <= k < |r| ==> sep !in r[k]
  {
    var i := IndexOf(s, sep);
    if i == -1 then [s] else [s[..i]] + Split(s[i + 1..], sep)
  }

  /** string.Join(sep, pieces). */
  function Join(pieces: seq<seq<byte>>, sep: byte): seq<byte>
  {
    if |pieces| == 0 then []
    else if |pieces| == 1 then pieces[0]
    else pieces[0] + [sep] + Join(pieces[1..], sep)
  }

  /** Joining the pieces of a split restores the text. */
  lemma {:induction false} JoinSplit(s: seq<byte>, sep: byte)
    decreases |s|
    ensures Join(Split(s, sep), sep) == s
  {
    var i := IndexOf(s, sep);
    if i != -1 {
      var rest := s[i + 1..];
      var r := Split(rest, sep);
      assert Split(s, sep) == [s[..i]] + r;
      JoinCons(s[..i], r, sep);
      JoinSplit(rest, sep);
      assert s == s[..i] + [sep] + rest;
    }
  }

  lemma JoinCons(p: seq<byte>, r: seq<seq<byte>>, sep: byte)
    requires |r| >= 1
    ensures Join([p] + r, sep) == p + [sep] + Join(r, sep)
  {
    assert ([p] + r)[1..] == r;
  }

  /** Splitting a join of pieces free of the separator gives the pieces back. */
  lemma {:induction false} SplitJoin(pieces: seq<seq<byte>>, sep: byte)
    requires |pieces| >= 1
    requires forall k :: 0 <= k < |pieces| ==> sep !in pieces[k]
    ensures Split(Join(pieces, sep), sep) == pieces
  {
    if |pieces| > 1 {
      var p := pieces[0];
      var rest := Join(pieces[1..], sep);
      var s := p + [sep] + rest;
      assert Join(pieces, sep) == s;
      SplitAtFirst(p, rest, sep);
      SplitJoin(pieces[1..], sep);
      assert pieces == [p] + pieces[1..];
    } else {
      assert sep !in pieces[0];
    }
  }

  /** Splitting `p + [sep] + rest` with `sep` absent from `p`. */
  lemma SplitAtFirst(p: seq<byte>, rest: seq<byte>, sep: byte)
    requires sep !in p
    ensures Split(p + [sep] + rest, sep) == [p] + Split(rest, sep)
  {
    var s := p + [sep] + rest;
    IndexAfterFree(p, [sep] + rest, sep);
    assert s == p + ([sep] + rest);
    assert s[..|p|] == p;
    assert s[|p| + 1..] == rest;
  }

  lemma IndexAfterFree(p: seq<byte>, q: seq<byte>, x: byte)
    requires x !in p && |q| > 0 && q[0] == x
    ensures IndexOf(p + q, x) == |p|
  {
    var s := p + q;
    assert s[|p|] == x;
    assert s[..|p|] == p;
    var i := IndexOf(s, x);
    if i < |p| {
      assert false;
    } else if i > |p| {
      assert false;
    }
  }

  /** string.TrimStart(): drops leading white space. */
  function TrimStart(s: seq<byte>): (r: seq<byte>)
    ensures |r| <= |s| && r == s[|s| - |r|..]
    ensures forall k :: 0 <= k < |s| - |r| ==> IsWhiteSpace(s[k])
    ensures |r| > 0 ==> !IsWhiteSpace(r[0])
  {
    if |s| > 0 && IsWhiteSpace(s[0]) then TrimStart(s[1..]) else s
  }

  /** string.TrimEnd(): drops trailing white space. */
  function TrimEnd(s: seq<byte>): (r: seq<byte>)
    ensures |r| <= |s| && r == s[..|r|]
    ensures forall k :: |r| <= k < |s| ==> IsWhiteSpace(s[k])
    ensures |r| > 0 ==> !IsWhiteSpace(r[|r| - 1])
  {
    if |s| > 0 && IsWhiteSpace(s[|s| - 1]) then TrimEnd(s[..|s| - 1]) else s
  }

  /** string.Trim(), as StringSplitOptions.TrimEntries applies it. */
  function Trim(s: seq<byte>): seq<byte>
  {
    TrimEnd(TrimStart(s))
  }
}
