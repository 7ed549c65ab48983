/** Numbers in network byte order, byte by byte. */
module NetworkOrder {
  import opened Words

  function Two(n: nat): (s: Bytes)
    ensures |s| == 2
  {
    [n / 256 % 256, n % 256]
  }

  function Three(n: nat): (s: Bytes)
    ensures |s| == 3
  {
    [n / 0x1_0000 % 256, n / 256 % 256, n % 256]
  }

  function Four(n: nat): (s: Bytes)
    ensures |s| == 4
  {
    [n / 0x100_0000 % 256, n / 0x1_0000 % 256, n / 256 % 256, n % 256]
  }

  function Number16(s: Bytes, i: nat): nat
    requires i + 2 <= |s|
  {
    256 * (s[i] as int) + s[i + 1]
  }

  function Number24(s: Bytes, i: nat): nat
    requires i + 3 <= |s|
  {
    0x1_0000 * (s[i] as int) + 256 * (s[i + 1] as int) + s[i + 2]
  }

  function Number32(s: Bytes, i: nat): nat
    requires i + 4 <= |s|
  {
    0x100_0000 * (s[i] as int) + 0x1_0000 * (s[i + 1] as int) + 256 * (s[i + 2] as int) + s[i + 3]
  }

  lemma TwoIs(n: nat)
    ensures BigEndian(n, 2) == Two(n)
  {
    Pow256Values();
    BigEndianAt(n, 2, 0);
    BigEndianAt(n, 2, 1);
  }

  lemma ThreeIs(n: nat)
    ensures BigEndian(n, 3) == Three(n)
  {
    Pow256Values();
    BigEndianAt(n, 3, 0);
    BigEndianAt(n, 3, 1);
    BigEndianAt(n, 3, 2);
  }

  lemma FourIs(n: nat)
    ensures BigEndian(n, 4) == Four(n)
  {
    Pow256Values();
    assert Pow256(3) == 0x100_0000;
    BigEndianAt(n, 4, 0);
    BigEndianAt(n, 4, 1);
    BigEndianAt(n, 4, 2);
    BigEndianAt(n, 4, 3);
  }

  lemma FromTwo(s: Bytes)
    requires |s| == 2
    ensures FromBigEndian(s) == Number16(s, 0)
  {
    assert s[..1][..0] == [];
    assert FromBigEndian(s[..1]) == s[0];
  }

  lemma FromThree(s: Bytes)
    requires |s| == 3
    ensures FromBigEndian(s) == Number24(s, 0)
  {
    FromTwo(s[..2]);
  }

  lemma FromFour(s: Bytes)
    requires |s| == 4
    ensures FromBigEndian(s) == Number32(s, 0)
  {
    FromThree(s[..3]);
  }
}
