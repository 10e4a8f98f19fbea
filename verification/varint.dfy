/** SQLite's variable-length integer (section 1.6 of the SQLite Database File
    Format document), as ReadVarInt decodes it: 1 to 9 bytes, 7 data bits per
    byte with the high bit meaning "more follows", and a ninth byte that
    contributes all 8 of its bits. ReadVarInt accumulates in a C# `int`, so
    the decoded value is the format's value wrapped to 32 bits. */
module Varint {
  import opened Results
  import opened ByteAccess

  /** Value of a run of 7-bit groups, most significant first; the
      continuation bit of each byte is ignored. */
  function Groups7(s: seq<byte>): nat
  {
    if s == [] then 0 else Groups7(s[..|s| - 1]) * 128 + s[|s| - 1] as int % 128
  }

  /** The unbounded integer that the first `len` bytes of `buf` denote as a
      varint of that length. */
  function VarintValue(buf: seq<byte>, len: nat): nat
    requires 1 <= len <= 9 && len <= |buf|
  {
    if len <= 8 then Groups7(buf[..len]) else Groups7(buf[..8]) * 256 + buf[8] as int
  }

  /** The bytes `s[i]` up to but not including `s[e]` all carry the
      continuation bit. Stated recursively so that it is unfolded only where
      a proof asks for it; HighRunMeans gives the quantified reading. */
  predicate HighRun(s: seq<byte>, i: int, e: int)
    requires 0 <= i && e <= |s|
    decreases e - i
  {
    i >= e || (s[i] >= 0x80 && HighRun(s, i + 1, e))
  }

  lemma {:induction false} HighRunMeans(s: seq<byte>, i: int, e: int)
    requires 0 <= i && e <= |s|
    decreases e - i
    ensures HighRun(s, i, e) <==> forall j :: i <= j < e ==> s[j] >= 0x80
  {
    if i < e {
      HighRunMeans(s, i + 1, e);
    }
  }

  /** A run of continuation bytes in a slice is the same run in the file. */
  lemma {:induction false} HighRunSlice(f: seq<byte>, off: int, buf: seq<byte>, i: int, e: int)
    requires 0 <= off && off + |buf| <= |f| && buf == f[off..off + |buf|]
    requires 0 <= i && e <= |buf|
    decreases e - i
    ensures HighRun(buf, i, e) <==> HighRun(f, off + i, off + e)
  {
    if i < e {
      assert buf[i] == f[off + i];
      HighRunSlice(f, off, buf, i + 1, e);
    }
  }

  /** The loop of ReadVarInt from byte `i` on, `value` being the `int`
      accumulated so far. `value << 7` is multiplication wrapped to 32
      bits; the shift leaves the low seven bits clear, so OR-ing the group
      in is an addition. */
  function Accumulate(buf: seq<byte>, i: nat, value: int): (r: (int, nat))
    requires |buf| == 9 && i <= 8
    requires value == I32(Groups7(buf[..i]))
    decreases 8 - i
    ensures i < r.1 <= 9
    ensures HighRun(buf, i, r.1 - 1)
    ensures r.1 <= 8 ==> buf[r.1 - 1] < 0x80
    ensures r.0 == I32(VarintValue(buf, r.1))
  {
    if i == 8 then
      I32MulWrapped(Groups7(buf[..8]), 256, buf[8] as int);
      (I32(value * 256 + buf[8] as int), 9)
    else
      var next := I32(value * 128 + buf[i] as int % 128);
      assert buf[..i + 1][..i] == buf[..i];
      I32MulWrapped(Groups7(buf[..i]), 128, buf[i] as int % 128);
      assert next == I32(Groups7(buf[..i + 1]));
      if buf[i] < 0x80 then (next, i + 1) else Accumulate(buf, i + 1, next)
  }

  /** Decodes the 9-byte buffer ReadVarInt fills; the second component is
      the number of bytes the varint occupies. */
  function DecodeVarInt(buf: seq<byte>): (r: (int, nat))
    requires |buf| == 9
    ensures EndsAt(buf, r.1)
    ensures r.0 == I32(VarintValue(buf, r.1))
  {
    assert buf[..0] == [];
    Accumulate(buf, 0, 0)
  }

  /** ReadVarInt: always reads 9 bytes at `off` (so it fails near the end of
      the file even for a short varint), then returns the value and the
      offset just past the varint. */
  function ReadVarInt(f: File, off: int): (r: Result<(int, int)>)
    ensures r.Ok? <==> 0 <= off && off + 9 <= |f|
    ensures r.Ok? ==> off < r.value.1 <= off + 9
    ensures r.Ok? ==> HighRun(f, off, r.value.1 - 1)
    ensures r.Ok? && r.value.1 <= off + 8 ==> f[r.value.1 - 1] < 0x80
    ensures r.Ok? ==> r.value.0 == I32(VarintValue(f[off..off + 9], r.value.1 - off))
  {
    var buf :- ReadBytes(f, off, 9);
    var (value, len) := DecodeVarInt(buf);
    HighRunSlice(f, off, buf, 0, len - 1);
    Ok((value, off + len))
  }

  /** A single byte below 0x80 is a complete varint and decodes to itself. */
  lemma ReadVarIntOneByte(f: File, off: int)
    requires 0 <= off && off + 9 <= |f|
    requires f[off] < 0x80
    ensures ReadVarInt(f, off) == Ok((f[off] as int, off + 1))
  {
    var buf := f[off..off + 9];
    assert buf[..1][..0] == [];
    assert Groups7(buf[..1]) == f[off] as int;
  }

  /** When the first eight bytes all have the high bit set, the ninth byte
      is shifted in whole: the result is (prev << 8) | b9, where prev is the
      `int` accumulated from the first eight 7-bit groups. */
  lemma ReadVarIntNineBytes(f: File, off: int)
    requires 0 <= off && off + 9 <= |f|
    requires forall j :: off <= j < off + 8 ==> f[j] >= 0x80
    ensures ReadVarInt(f, off) ==
      Ok((I32(I32(Groups7(f[off..off + 8])) * 256 + f[off + 8] as int), off + 9))
  {
    var buf := f[off..off + 9];
    assert buf[..8] == f[off..off + 8];
    I32MulWrapped(Groups7(f[off..off + 8]), 256, f[off + 8] as int);
  }

  // ---------------------------------------------------------------------
  // Encoding, the partner of ReadVarInt.

  const Two56: int := 0x100_0000_0000_0000
  const Two64: int := 0x1_0000_0000_0000_0000

  function Pow128(k: nat): (r: nat)
    ensures r >= 1
  {
    if k == 0 then 1 else 128 * Pow128(k - 1)
  }

  /** Number of 7-bit groups the shortest encoding of `v` needs. */
  function Width(v: nat): (w: nat)
    ensures 1 <= w && v < Pow128(w)
  {
    if v < 128 then 1 else 1 + Width(v / 128)
  }

  lemma {:induction false} WidthAtMost(v: nat, k: nat)
    requires 1 <= k && v < Pow128(k)
    ensures Width(v) <= k
  {
    if v >= 128 {
      WidthAtMost(v / 128, k - 1);
    }
  }

  /** The low `k` 7-bit groups of `x`, most significant first, each with
      the continuation bit set. */
  function ContinuationBytes(x: nat, k: nat): (r: seq<byte>)
    ensures |r| == k
  {
    if k == 0 then [] else ContinuationBytes(x / 128, k - 1) + [(x % 128 + 0x80) as byte]
  }

  lemma {:induction false} ContinuationBytesHigh(x: nat, k: nat)
    ensures forall j :: 0 <= j < k ==> ContinuationBytes(x, k)[j] >= 0x80
  {
    if k > 0 {
      ContinuationBytesHigh(x / 128, k - 1);
    }
  }

  lemma {:induction false} ContinuationBytesValue(x: nat, k: nat)
    requires x < Pow128(k)
    ensures Groups7(ContinuationBytes(x, k)) == x
  {
    if k > 0 {
      var s := ContinuationBytes(x, k);
      assert s[..k - 1] == ContinuationBytes(x / 128, k - 1);
      ContinuationBytesValue(x / 128, k - 1);
    }
  }

  /** The encoding SQLite writes for an unsigned 64-bit value: the shortest
      run of 7-bit groups up to eight bytes, else eight groups of the high
      56 bits followed by the low byte whole. */
  function Encode(v: nat): (e: seq<byte>)
    requires v < Two64
    ensures 1 <= |e| <= 9
    ensures |e| == 9 <==> v >= Two56
  {
    if v < Two56 then
      assert Pow128(8) == Two56;
      WidthAtMost(v, 8);
      ContinuationBytes(v / 128, Width(v) - 1) + [(v % 128) as byte]
    else
      ContinuationBytes(v / 256, 8) + [(v % 256) as byte]
  }

  /** Every byte of an encoding but the last carries the continuation
      bit; the last of a short encoding does not. */
  lemma EncodeShape(v: nat)
    requires v < Two64
    ensures forall j :: 0 <= j < |Encode(v)| - 1 ==> Encode(v)[j] >= 0x80
    ensures |Encode(v)| <= 8 ==> Encode(v)[|Encode(v)| - 1] < 0x80
  {
    if v < Two56 {
      ContinuationBytesHigh(v / 128, |Encode(v)| - 1);
    } else {
      ContinuationBytesHigh(v / 256, 8);
    }
  }

  /** The bytes of an encoding denote the encoded value. */
  lemma EncodedValue(buf: seq<byte>, v: nat)
    requires v < Two64
    requires |Encode(v)| <= |buf| && buf[..|Encode(v)|] == Encode(v)
    ensures VarintValue(buf, |Encode(v)|) == v
  {
    if v < Two56 {
      ShortEncodingValue(v);
      assert buf[..|Encode(v)|] == Encode(v);
    } else {
      LongEncodingValue(buf, v);
    }
  }

  lemma ShortEncodingValue(v: nat)
    requires v < Two56
    ensures Groups7(Encode(v)) == v
  {
    var w := Width(v);
    var front := ContinuationBytes(v / 128, w - 1);
    var last := (v % 128) as byte;
    assert Encode(v) == front + [last];
    QuotientBelow(v, w);
    ContinuationBytesValue(v / 128, w - 1);
    Groups7Snoc(front, last);
  }

  /** Appending a byte shifts the groups so far up by seven bits. */
  lemma Groups7Snoc(s: seq<byte>, x: byte)
    ensures Groups7(s + [x]) == Groups7(s) * 128 + x as int % 128
  {
    assert (s + [x])[..|s|] == s;
  }

  lemma QuotientBelow(v: nat, w: nat)
    requires 1 <= w && v < Pow128(w)
    ensures v / 128 < Pow128(w - 1)
  {
    assert Pow128(w) == 128 * Pow128(w - 1);
  }

  lemma LongEncodingValue(buf: seq<byte>, v: nat)
    requires Two56 <= v < Two64
    requires 9 <= |buf| && buf[..9] == Encode(v)
    ensures Groups7(buf[..8]) * 256 + buf[8] as int == v
  {
    assert Pow128(8) == Two56;
    assert buf[..8] == Encode(v)[..8] == ContinuationBytes(v / 256, 8);
    ContinuationBytesValue(v / 256, 8);
  }

  /** `buf` holds a varint of `n` bytes: the first `n - 1` bytes carry
      the continuation bit and, unless it is the ninth, byte `n` does not. */
  predicate EndsAt(buf: seq<byte>, n: nat)
    requires 9 <= |buf|
  {
    && 1 <= n <= 9
    && HighRun(buf, 0, n - 1)
    && (n <= 8 ==> buf[n - 1] < 0x80)
  }

  lemma EndsAtUnique(buf: seq<byte>, n: nat, m: nat)
    requires 9 <= |buf|
    requires EndsAt(buf, n) && EndsAt(buf, m)
    ensures n == m
  {
    HighRunMeans(buf, 0, n - 1);
    HighRunMeans(buf, 0, m - 1);
  }

  lemma EncodingEndsAt(buf: seq<byte>, v: nat)
    requires v < Two64
    requires 9 <= |buf| && buf[..|Encode(v)|] == Encode(v)
    ensures EndsAt(buf, |Encode(v)|)
  {
    var e := Encode(v);
    EncodeShape(v);
    forall j | 0 <= j < |e|
      ensures buf[j] == e[j]
    {
      assert buf[..|e|][j] == buf[j];
    }
    HighRunMeans(buf, 0, |e| - 1);
  }

  /** `a` is one whole varint as SQLite lays it down: every byte but the
      last carries the continuation bit, and so does the last only when
      it is the ninth. */
  predicate WholeVarint(a: seq<byte>)
  {
    && 1 <= |a| <= 9
    && HighRun(a, 0, |a| - 1)
    && (|a| <= 8 ==> a[|a| - 1] < 0x80)
  }

  lemma EncodeWhole(v: nat)
    requires v < Two64
    ensures WholeVarint(Encode(v))
  {
    EncodeShape(v);
    HighRunMeans(Encode(v), 0, |Encode(v)| - 1);
  }

  /** ReadVarInt stops exactly at the end of a whole varint laid down at
      `off`, whatever follows it. */
  lemma ReadVarIntWhole(f: File, off: int, a: seq<byte>)
    requires WholeVarint(a) && Placed(f, off, a) && off + 9 <= |f|
    ensures ReadVarInt(f, off).Ok? && ReadVarInt(f, off).value.1 == off + |a|
  {
    PlacedMeans(f, off, a);
    var buf := f[off..off + 9];
    var d := DecodeVarInt(buf);
    var n := |a|;
    HighRunMeans(a, 0, n - 1);
    HighRunMeans(buf, 0, n - 1);
    forall j | 0 <= j < n
      ensures buf[j] == a[j]
    {
      assert f[off..off + n][j] == a[j];
    }
    assert EndsAt(buf, n);
    EndsAtUnique(buf, d.1, n);
  }

  /** Encoding then decoding any unsigned 64-bit value gives it back
      wrapped to a C# `int`, and consumes exactly the encoded bytes. */
  lemma ReadVarIntEncoded(f: File, off: int, v: nat)
    requires v < Two64
    requires 0 <= off && off + 9 <= |f|
    requires f[off..off + |Encode(v)|] == Encode(v)
    ensures ReadVarInt(f, off) == Ok((I32(v), off + |Encode(v)|))
  {
    var buf := f[off..off + 9];
    assert buf[..|Encode(v)|] == Encode(v);
    EncodedDecodes(buf, v);
  }

  /** The 9-byte buffer that starts with an encoding decodes to the
      encoded value, wrapped, and to the encoding's length. */
  lemma EncodedDecodes(buf: seq<byte>, v: nat)
    requires v < Two64
    requires |buf| == 9 && buf[..|Encode(v)|] == Encode(v)
    ensures DecodeVarInt(buf) == (I32(v), |Encode(v)|)
  {
    var d := DecodeVarInt(buf);
    EncodingEndsAt(buf, v);
    EndsAtUnique(buf, d.1, |Encode(v)|);
    EncodedValue(buf, v);
  }

  /** Values below 2^31 survive the 32-bit accumulator unchanged. */
  lemma ReadVarIntEncodedSmall(f: File, off: int, v: nat)
    requires v < Two31
    requires 0 <= off && off + 9 <= |f|
    requires f[off..off + |Encode(v)|] == Encode(v)
    ensures ReadVarInt(f, off) == Ok((v, off + |Encode(v)|))
  {
    ReadVarIntEncoded(f, off, v);
    I32Exact(v);
  }
}
