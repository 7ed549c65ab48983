/** Little-endian fields: what the RemoteXPC and DTX codecs build their messages from. */
module Fields {
  import opened Words

  /** A 32-bit little-endian word; a size is truncated to 32 bits. */
  function Word(n: nat): (s: Bytes)
    ensures |s| == 4
  {
    LittleEndian(n % TWO_TO_THE_32, 4)
  }

  function LongWord(n: nat): (s: Bytes)
    ensures |s| == 8
  {
    LittleEndian(n % TWO_TO_THE_64, 8)
  }

  /** A value and the number of bytes it was read from. */
  datatype Read<+T> = Bad | Got(value: T, size: nat)

  function U32(s: Bytes): Word32
    requires |s| >= 4
  {
    FromLittleEndianBound(s[..4]);
    Pow256Values();
    FromLittleEndian(s[..4])
  }

  function U64(s: Bytes): Word64
    requires |s| >= 8
  {
    FromLittleEndianBound(s[..8]);
    Pow256Values();
    FromLittleEndian(s[..8])
  }

  lemma WordBack(n: nat, rest: Bytes)
    requires n < TWO_TO_THE_32
    ensures U32(Word(n) + rest) == n && (Word(n) + rest)[4..] == rest
  {
    hide LittleEndian, FromLittleEndian, Pow256;
    Pow256Values();
    LittleEndianRoundTrip(n, 4);
    assert (Word(n) + rest)[..4] == Word(n);
  }

  lemma LongWordBack(n: nat, rest: Bytes)
    requires n < TWO_TO_THE_64
    ensures U64(LongWord(n) + rest) == n && (LongWord(n) + rest)[8..] == rest
  {
    hide LittleEndian, FromLittleEndian, Pow256;
    Pow256Values();
    LittleEndianRoundTrip(n, 8);
    assert (LongWord(n) + rest)[..8] == LongWord(n);
  }

  lemma LittleEndianStep(s: Bytes, i: nat)
    requires i < |s|
    ensures FromLittleEndian(s[..i + 1]) == FromLittleEndian(s[..i]) + s[i] * Pow256(i)
  {
    FromLittleEndianSnoc(s[..i], s[i]);
    assert s[..i] + [s[i]] == s[..i + 1];
  }

  method AppendU32(out: ByteVector, value: nat)
    modifies out
    ensures out.bytes == old(out.bytes) + Word(value)
  {
    out.PutLittleEndian(value % TWO_TO_THE_32, 4);
  }

  method AppendU64(out: ByteVector, value: nat)
    modifies out
    ensures out.bytes == old(out.bytes) + LongWord(value)
  {
    out.PutLittleEndian(value % TWO_TO_THE_64, 8);
  }

  // ---------------------------------------------------------------------------
  // The same words, byte by byte
  // ---------------------------------------------------------------------------

  function FourBytes(n: nat): (s: Bytes)
    ensures |s| == 4
  {
    [n % 256, n / 0x100 % 256, n / 0x1_0000 % 256, n / 0x100_0000 % 256]
  }

  function EightBytes(n: nat): (s: Bytes)
    ensures |s| == 8
  {
    FourBytes(n) + FourBytes(n / 0x1_0000_0000)
  }

  lemma {:induction false} LowBytes(n: nat, size: nat)
    ensures LittleEndian(n % Pow256(size), size) == LittleEndian(n, size)
  {
    if size > 0 {
      var unit := Pow256(size - 1);
      var m := n % Pow256(size);
      DivideTwice(n, 256, unit);
      QuotientIs(n, 256, unit * (n / Pow256(size)) + m / 256, m % 256) by {
        Associates(256, unit, n / Pow256(size));
        Distributes(256, unit * (n / Pow256(size)), m / 256);
      }
      assert m / 256 < unit;
      QuotientIs(n / 256, unit, n / Pow256(size), m / 256);
      LowBytes(n / 256, size - 1);
    }
  }

  lemma WordIs(n: nat)
    ensures Word(n) == FourBytes(n)
  {
    hide LittleEndian;
    Pow256Values();
    LowBytes(n, 4);
    assert Pow256(3) == 0x100_0000;
    LittleEndianAt(n, 4, 0);
    LittleEndianAt(n, 4, 1);
    LittleEndianAt(n, 4, 2);
    LittleEndianAt(n, 4, 3);
  }

  lemma LongWordIs(n: nat)
    ensures LongWord(n) == EightBytes(n)
  {
    hide LittleEndian;
    Pow256Values();
    LowBytes(n, 8);
    assert Pow256(3) == 0x100_0000;
    forall i: nat | i < 4
      ensures LittleEndian(n, 8)[i] == n / Pow256(i) % 256
      ensures LittleEndian(n, 8)[4 + i] == n / 0x1_0000_0000 / Pow256(i) % 256
    {
      LittleEndianAt(n, 8, i);
      LittleEndianAt(n, 8, 4 + i);
      DivideTwice(n, 0x1_0000_0000, Pow256(i));
      PowerOfSum(i);
    }
    FourByFour(LittleEndian(n, 8), n);
  }

  lemma PowerOfSum(i: nat)
    ensures Pow256(4 + i) == 0x1_0000_0000 * Pow256(i)
  {
    if i > 0 {
      PowerOfSum(i - 1);
      assert Pow256(4 + i) == 256 * Pow256(4 + (i - 1));
    } else {
      Pow256Values();
    }
  }

  lemma FourByFour(s: Bytes, n: nat)
    requires |s| == 8 && forall i: nat :: i < 4 ==> s[i] == n / Pow256(i) % 256
    requires forall i: nat :: i < 4 ==> s[4 + i] == n / 0x1_0000_0000 / Pow256(i) % 256
    ensures s == EightBytes(n)
  {
    Pow256Values();
    assert Pow256(3) == 0x100_0000;
    assert s[4] == s[4 + 0] && s[5] == s[4 + 1] && s[6] == s[4 + 2] && s[7] == s[4 + 3];
  }

  lemma BackToBytes(s: Bytes)
    ensures |s| >= 4 ==> Word(U32(s)) == s[..4]
    ensures |s| >= 8 ==> LongWord(U64(s)) == s[..8]
  {
    hide LittleEndian, FromLittleEndian;
    if |s| >= 4 {
      LittleEndianOf(s[..4]);
    }
    if |s| >= 8 {
      LittleEndianOf(s[..8]);
    }
  }

  /** A word read is the word that is there. */
  lemma WordForth(s: Bytes)
    requires |s| >= 4
    ensures s == FourBytes(U32(s)) + s[4..]
  {
    hide Word, U32, FourBytes;
    WordIs(U32(s));
    BackToBytes(s);
    assert s == s[..4] + s[4..];
  }

  lemma LongWordForth(s: Bytes)
    requires |s| >= 8
    ensures s == EightBytes(U64(s)) + s[8..]
  {
    hide LongWord, U64, EightBytes;
    LongWordIs(U64(s));
    BackToBytes(s);
    assert s == s[..8] + s[8..];
  }

  lemma {:induction false} LittleEndianOf(s: Bytes)
    ensures LittleEndian(FromLittleEndian(s), |s|) == s
  {
    if s != [] {
      var v := FromLittleEndian(s[1..]);
      LittleEndianOf(s[1..]);
      LittleStep(s[0], v, |s|);
      assert [s[0]] + s[1..] == s;
    }
  }

  lemma LittleStep(b: Byte, v: nat, n: nat)
    requires n > 0
    ensures LittleEndian(b + 256 * v, n) == [b] + LittleEndian(v, n - 1)
  {
    hide FromLittleEndian;
    QuotientIs(b + 256 * v, 256, v, b);
  }

  lemma FourBack(n: nat, rest: Bytes)
    requires n < TWO_TO_THE_32
    ensures U32(FourBytes(n) + rest) == n && (FourBytes(n) + rest)[4..] == rest
  {
    hide Word, U32;
    WordIs(n);
    WordBack(n, rest);
  }

  lemma EightBack(n: nat, rest: Bytes)
    requires n < TWO_TO_THE_64
    ensures U64(EightBytes(n) + rest) == n && (EightBytes(n) + rest)[8..] == rest
  {
    hide LongWord, U64, EightBytes;
    LongWordIs(n);
    LongWordBack(n, rest);
  }
}
