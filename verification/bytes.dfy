/** Positioned reads over the database file, which the model treats as an
    immutable byte sequence. A read fails with IoError where the reader's
    Seek or ReadExactly would throw.

    Offsets are C# `int`s. The model restricts files to fewer than 2^31
    bytes. Within that bound an offset that the reader extends by a small
    constant and reads straight away fails in both cases: if the C# sum
    wraps, it is negative and Seek throws; if the mathematical sum runs past
    2^31, it is past the end of the file and the read is short. Sums of
    values taken from the file, which may wrap before they are used, go
    through I32 explicitly where they occur. */
module ByteAccess {
  import opened Results

  newtype byte = b: int | 0 <= b < 256

  const Two31: int := 0x8000_0000
  const Two32: int := 0x1_0000_0000

  /** A database file the reader can address with `int` offsets. */
  type File = f: seq<byte> | |f| < 0x8000_0000

  /** Two's-complement wrap-around to a C# `int`. */
  function I32(x: int): (r: int)
    ensures -Two31 <= r < Two31
    ensures (x - r) % Two32 == 0
  {
    var u := x % Two32;
    if u < Two31 then u else u - Two32
  }

  lemma I32Exact(x: int)
    requires -Two31 <= x < Two31
    ensures I32(x) == x
  {
  }

  /** Wrapping once more after an addition is the same as wrapping once. */
  lemma I32AddWrapped(a: int, b: int)
    ensures I32(I32(a) + b) == I32(a + b)
  {
    var q := (a - I32(a)) / Two32;
    assert a == I32(a) + Two32 * q;
    I32Shift(I32(a) + b, q);
  }

  /** Wrapping after a multiplication by a constant ignores an earlier wrap. */
  lemma I32MulWrapped(a: int, k: int, b: int)
    requires k == 128 || k == 256
    ensures I32(I32(a) * k + b) == I32(a * k + b)
  {
    var q := (a - I32(a)) / Two32;
    assert a == I32(a) + Two32 * q;
    assert a * k + b == I32(a) * k + b + Two32 * (q * k);
    I32Shift(I32(a) * k + b, q * k);
  }

  /** I32 depends only on the value modulo 2^32. */
  lemma I32Shift(x: int, q: int)
    ensures I32(x + Two32 * q) == I32(x)
  {
    var r := x % Two32;
    assert x + Two32 * q == Two32 * (x / Two32 + q) + r;
    ModUnique(x + Two32 * q, x / Two32 + q, r);
  }

  lemma ModUnique(a: int, d: int, r: int)
    requires a == Two32 * d + r
    requires 0 <= r < Two32
    ensures a % Two32 == r
  {
  }

  /** Unsigned big-endian value of a byte sequence. */
  function BigEndian(s: seq<byte>): nat
  {
    if s == [] then 0 else BigEndian(s[..|s| - 1]) * 256 + s[|s| - 1] as int
  }

  lemma BigEndianOne(s: seq<byte>)
    requires |s| == 1
    ensures BigEndian(s) == s[0] as int
  {
    assert s[..0] == [];
  }

  lemma BigEndianTwo(s: seq<byte>)
    requires |s| == 2
    ensures BigEndian(s) == s[0] as int * 0x100 + s[1] as int
  {
    BigEndianOne(s[..1]);
  }

  lemma BigEndianThree(s: seq<byte>)
    requires |s| == 3
    ensures BigEndian(s) == s[0] as int * 0x1_0000 + s[1] as int * 0x100 + s[2] as int
  {
    BigEndianTwo(s[..2]);
  }

  lemma BigEndianFour(s: seq<byte>)
    requires |s| == 4
    ensures BigEndian(s) == s[0] as int * 0x100_0000 + s[1] as int * 0x1_0000 + s[2] as int * 0x100 + s[3] as int
  {
    BigEndianThree(s[..3]);
  }

  /** Seek to `off`, then ReadExactly `n` bytes. A zero-length read at or
      past the end succeeds; Seek to a negative offset throws. */
  function ReadBytes(f: File, off: int, n: nat): (r: Result<seq<byte>>)
    ensures r.Ok? <==> 0 <= off && (n == 0 || off + n <= |f|)
    ensures r.Err? ==> r.error == IoError
    ensures r.Ok? ==> |r.value| == n
    ensures r.Ok? && n > 0 ==> r.value == f[off..off + n]
  {
    if off < 0 then Err(IoError)
    else if n == 0 then Ok([])
    else if off + n <= |f| then Ok(f[off..off + n])
    else Err(IoError)
  }

  /** Seek to `off`, then Stream.ReadByte, which yields -1 at the end of
      the file instead of throwing. */
  function ReadByteOrEof(f: File, off: int): (r: Result<int>)
    ensures r.Ok? <==> 0 <= off
    ensures r.Err? ==> r.error == IoError
    ensures r.Ok? ==> -1 <= r.value < 256
    ensures r.Ok? ==> (r.value == -1 <==> off >= |f|)
    ensures r.Ok? && off < |f| ==> r.value == f[off] as int
  {
    if off < 0 then Err(IoError)
    else if off < |f| then Ok(f[off] as int)
    else Ok(-1)
  }

  /** ReadInt16: two bytes, big-endian, unsigned. */
  function ReadInt16(f: File, off: int): (r: Result<int>)
    ensures r.Ok? <==> 0 <= off && off + 2 <= |f|
    ensures r.Err? ==> r.error == IoError
    ensures r.Ok? ==> r.value == BigEndian(f[off..off + 2]) && 0 <= r.value < 0x1_0000
  {
    var b :- ReadBytes(f, off, 2);
    BigEndianTwo(b);
    Ok(b[0] as int * 0x100 + b[1] as int)
  }

  /** A child-page pointer built from four bytes with C# `int` shifts:
      the first byte lands in the sign bit, so the result is signed. */
  function ReadInt32(f: File, off: int): (r: Result<int>)
    ensures r.Ok? <==> 0 <= off && off + 4 <= |f|
    ensures r.Err? ==> r.error == IoError
    ensures r.Ok? ==> r.value == I32(BigEndian(f[off..off + 4]))
    ensures r.Ok? && f[off] < 0x80 ==> r.value == BigEndian(f[off..off + 4])
  {
    var b :- ReadBytes(f, off, 4);
    BigEndianFour(b);
    var u := b[0] as int * 0x100_0000 + b[1] as int * 0x1_0000 + b[2] as int * 0x100 + b[3] as int;
    Ok(I32(u))
  }

  /** `f` holds the bytes `a` from `off` on. Placed and PlacedBytes are
      defined together so that a proof sees no byte of `f` until it asks
      for one; PlacedMeans gives the reading as a slice. */
  predicate Placed(f: seq<byte>, off: int, a: seq<byte>)
    decreases |a|, 1
  {
    0 <= off && off + |a| <= |f| && PlacedBytes(f, off, a)
  }

  predicate PlacedBytes(f: seq<byte>, off: int, a: seq<byte>)
    requires 0 <= off && off + |a| <= |f|
    decreases |a|, 0
  {
    a != [] ==> Placed(f, off, a[..|a| - 1]) && f[off + |a| - 1] == a[|a| - 1]
  }

  lemma {:induction false} PlacedMeans(f: seq<byte>, off: int, a: seq<byte>)
    decreases |a|
    ensures Placed(f, off, a) <==> 0 <= off && off + |a| <= |f| && f[off..off + |a|] == a
  {
    if a != [] {
      var n := |a| - 1;
      PlacedMeans(f, off, a[..n]);
      if 0 <= off && off + |a| <= |f| {
        assert PlacedBytes(f, off, a) <==> Placed(f, off, a[..n]) && f[off + n] == a[n];
        assert f[off..off + |a|] == f[off..off + n] + [f[off + n]];
        if f[off..off + |a|] == a {
          assert f[off..off + n] == a[..n];
          assert f[off + n] == a[n];
        }
        if f[off..off + n] == a[..n] && f[off + n] == a[n] {
          assert a == a[..n] + [a[n]];
        }
      }
    }
  }
}
