/**
 Results, bytes and fixed-width words shared by the codecs.

 A byte is an integer in 0..255 and a machine word is an unbounded integer that is
 reduced explicitly where the C++ code would wrap.
 */
module Words {

  /** The error codes of the library; the message text is not modelled. */
  datatype Error = Protocol | Device | InvalidArgument | Transport

  datatype Result<+T> = Ok(value: T) | Err(error: Error)

  datatype Option<+T> = None | Some(value: T)

  type Byte = b: int | 0 <= b < 256
  type Bytes = seq<Byte>

  const TWO_TO_THE_8: int := 0x100
  const TWO_TO_THE_16: int := 0x1_0000
  const TWO_TO_THE_31: int := 0x8000_0000
  const TWO_TO_THE_32: int := 0x1_0000_0000
  const TWO_TO_THE_63: int := 0x8000_0000_0000_0000
  const TWO_TO_THE_64: int := 0x1_0000_0000_0000_0000

  type Word16 = w: int | 0 <= w < TWO_TO_THE_16
  type Word32 = w: int | 0 <= w < TWO_TO_THE_32
  type Word64 = w: int | 0 <= w < TWO_TO_THE_64
  type Int32 = i: int | -TWO_TO_THE_31 <= i < TWO_TO_THE_31
  type Int64 = i: int | -TWO_TO_THE_63 <= i < TWO_TO_THE_63

  /** The two's-complement reading of a 64-bit word. */
  function Signed64(w: Word64): (i: Int64)
    ensures Unsigned64(i) == w
  {
    if w < TWO_TO_THE_63 then w else w - TWO_TO_THE_64
  }

  /** The bit pattern of a 64-bit integer. */
  function Unsigned64(i: Int64): Word64 {
    if i >= 0 then i else i + TWO_TO_THE_64
  }

  /** The two's-complement reading of a 32-bit word. */
  function Signed32(w: Word32): (i: Int32)
    ensures Unsigned32(i) == w
  {
    if w < TWO_TO_THE_31 then w else w - TWO_TO_THE_32
  }

  /** The bit pattern of a 32-bit integer. */
  function Unsigned32(i: Int32): Word32 {
    if i >= 0 then i else i + TWO_TO_THE_32
  }

  function Min(a: int, b: int): int {
    if a <= b then a else b
  }

  function Max(a: int, b: int): int {
    if a >= b then a else b
  }

  // ---------------------------------------------------------------------------
  // Powers of 256, the weight of a byte
  // ---------------------------------------------------------------------------

  function Pow256(n: nat): (p: nat)
    ensures p > 0
  {
    if n == 0 then 1 else 256 * Pow256(n - 1)
  }

  lemma Pow256Values()
    ensures Pow256(0) == 1 && Pow256(1) == TWO_TO_THE_8 && Pow256(2) == TWO_TO_THE_16
    ensures Pow256(4) == TWO_TO_THE_32 && Pow256(8) == TWO_TO_THE_64
  {
    assert Pow256(3) == 256 * Pow256(2);
    assert Pow256(5) == 256 * Pow256(4);
    assert Pow256(6) == 256 * Pow256(5);
    assert Pow256(7) == 256 * Pow256(6);
  }

  lemma Pow256Monotone(m: nat, n: nat)
    requires m <= n
    ensures Pow256(m) <= Pow256(n)
  {
    if m < n {
      Pow256Monotone(m, n - 1);
    }
  }

  lemma Associates(a: int, b: int, c: int)
    ensures (a * b) * c == a * (b * c)
  {
  }

  lemma Distributes(a: int, b: int, c: int)
    ensures a * (b + c) == a * b + a * c
  {
  }

  lemma DivideTwice(v: nat, a: int, b: int)
    requires a > 0 && b > 0
    ensures a * b > 0 && (v / a) / b == v / (a * b)
  {
    var q, r := v / (a * b), v % (a * b);
    Associates(a, b, q);
    var t := r / a;
    assert 0 <= t < b by {
      assert t >= b ==> a * t >= a * b;
    }
    Distributes(a, b * q, t);
    QuotientIs(v, a, b * q + t, r % a);
    QuotientIs(v / a, b, q, t);
  }

  lemma QuotientIs(v: int, a: int, q: int, r: int)
    requires a > 0 && 0 <= r < a && v == a * q + r
    ensures v / a == q && v % a == r
  {
    var d := v / a - q;
    assert a * d == r - v % a;
    assert d >= 1 ==> a * d >= a;
    assert d <= -1 ==> a * d <= -a;
  }

  // ---------------------------------------------------------------------------
  // Big-endian and little-endian words
  // ---------------------------------------------------------------------------

  /** The low `n` bytes of `v`, most significant first. */
  function BigEndian(v: nat, n: nat): (s: Bytes)
    ensures |s| == n
  {
    if n == 0 then [] else BigEndian(v / 256, n - 1) + [v % 256]
  }

  function FromBigEndian(s: Bytes): nat {
    if s == [] then 0 else FromBigEndian(s[..|s| - 1]) * 256 + s[|s| - 1]
  }

  /** The low `n` bytes of `v`, least significant first. */
  function LittleEndian(v: nat, n: nat): (s: Bytes)
    ensures |s| == n
  {
    if n == 0 then [] else [v % 256] + LittleEndian(v / 256, n - 1)
  }

  function FromLittleEndian(s: Bytes): nat {
    if s == [] then 0 else s[0] + 256 * FromLittleEndian(s[1..])
  }

  lemma {:induction false} BigEndianRoundTrip(v: nat, n: nat)
    requires v < Pow256(n)
    ensures FromBigEndian(BigEndian(v, n)) == v
  {
    if n > 0 {
      BigEndianRoundTrip(v / 256, n - 1);
      assert BigEndian(v, n)[..n - 1] == BigEndian(v / 256, n - 1);
    }
  }

  lemma {:induction false} FromBigEndianBound(s: Bytes)
    ensures FromBigEndian(s) < Pow256(|s|)
  {
    if s != [] {
      FromBigEndianBound(s[..|s| - 1]);
    }
  }

  lemma {:induction false} BigEndianOf(s: Bytes)
    ensures BigEndian(FromBigEndian(s), |s|) == s
  {
    if s != [] {
      BigEndianOf(s[..|s| - 1]);
      assert s[..|s| - 1] + [s[|s| - 1]] == s;
    }
  }

  lemma {:induction false} LittleEndianRoundTrip(v: nat, n: nat)
    requires v < Pow256(n)
    ensures FromLittleEndian(LittleEndian(v, n)) == v
  {
    if n > 0 {
      LittleEndianRoundTrip(v / 256, n - 1);
      assert LittleEndian(v, n)[1..] == LittleEndian(v / 256, n - 1);
    }
  }

  lemma {:induction false} FromLittleEndianBound(s: Bytes)
    ensures FromLittleEndian(s) < Pow256(|s|)
  {
    if s != [] {
      FromLittleEndianBound(s[1..]);
    }
  }

  lemma {:induction false} FromLittleEndianSnoc(s: Bytes, b: Byte)
    ensures FromLittleEndian(s + [b]) == FromLittleEndian(s) + b * Pow256(|s|)
  {
    if s != [] {
      FromLittleEndianSnoc(s[1..], b);
      assert (s + [b])[1..] == s[1..] + [b];
      assert 256 * (b * Pow256(|s| - 1)) == b * Pow256(|s|);
    }
  }

  lemma {:induction false} BigEndianAt(v: nat, n: nat, i: nat)
    requires i < n
    ensures BigEndian(v, n)[i] == v / Pow256(n - 1 - i) % 256
  {
    if i < n - 1 {
      BigEndianAt(v / 256, n - 1, i);
      DivideTwice(v, 256, Pow256(n - 2 - i));
    }
  }

  lemma {:induction false} LittleEndianAt(v: nat, n: nat, i: nat)
    requires i < n
    ensures LittleEndian(v, n)[i] == v / Pow256(i) % 256
  {
    if i > 0 {
      LittleEndianAt(v / 256, n - 1, i - 1);
      DivideTwice(v, 256, Pow256(i - 1));
    }
  }

  // ---------------------------------------------------------------------------
  // Strings of bytes end to end
  // ---------------------------------------------------------------------------

  function Concat(parts: seq<Bytes>): Bytes {
    if parts == [] then [] else parts[0] + Concat(parts[1..])
  }

  lemma {:induction false} ConcatSnoc(parts: seq<Bytes>, p: Bytes)
    ensures Concat(parts + [p]) == Concat(parts) + p
  {
    if parts == [] {
      assert Concat([p]) == p + Concat([p][1..]);
    } else {
      ConcatSnoc(parts[1..], p);
      assert (parts + [p])[1..] == parts[1..] + [p];
    }
  }

  // ---------------------------------------------------------------------------
  // The growing byte vector every encoder appends to
  // ---------------------------------------------------------------------------

  class ByteVector {
    var bytes: Bytes

    constructor ()
      ensures bytes == []
    {
      bytes := [];
    }

    method Push(b: Byte)
      modifies this
      ensures bytes == old(bytes) + [b]
    {
      bytes := bytes + [b];
    }

    method Insert(data: Bytes)
      modifies this
      ensures bytes == old(bytes) + data
    {
      bytes := bytes + data;
    }

    /** Appends the low `size` bytes of `value`, most significant first. */
    method PutBigEndian(value: nat, size: nat)
      modifies this
      ensures bytes == old(bytes) + BigEndian(value, size)
    {
      for i := 0 to size
        invariant bytes == old(bytes) + BigEndian(value, size)[..i]
      {
        BigEndianAt(value, size, i);
        Push(value / Pow256(size - 1 - i) % 256);
      }
      assert BigEndian(value, size)[..size] == BigEndian(value, size);
    }

    /** Appends the low `size` bytes of `value`, least significant first. */
    method PutLittleEndian(value: nat, size: nat)
      modifies this
      ensures bytes == old(bytes) + LittleEndian(value, size)
    {
      for i := 0 to size
        invariant bytes == old(bytes) + LittleEndian(value, size)[..i]
      {
        LittleEndianAt(value, size, i);
        Push(value / Pow256(i) % 256);
      }
      assert LittleEndian(value, size)[..size] == LittleEndian(value, size);
    }
  }
}
