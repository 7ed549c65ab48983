/**
 The TCP checksum over the IPv6 pseudo-header (section 3.1 of RFC 9293 and section 8.1 of
 RFC 8200), computed with a 32-bit accumulator that is folded once at the end.

 `OnesSum` is the independent definition: words added one at a time with the carry brought
 around after each.
 */
module Checksum {
  import opened Words
  import opened Ipv6

  const PSEUDO_SIZE: nat := 40
  const NEXT_TCP: Byte := 6
  const SEGMENT_LIMIT: nat := 65535
  const CHECKSUM_OFFSET: nat := 16

  function WordOf(high: Byte, low: Byte): Word16 {
    256 * (high as int) + low
  }

  /** The sum of the 16-bit words; an odd last byte is the high half of its word. */
  function WordSum(s: Bytes): nat {
    if s == [] then 0
    else if |s| == 1 then WordOf(s[0], 0)
    else WordOf(s[0], s[1]) + WordSum(s[2..])
  }

  /** One's complement addition of 16-bit words, the carry brought around. */
  function OnesAdd(a: Word16, b: Word16): Word16 {
    if a + b >= TWO_TO_THE_16 then a + b - 65535 else a + b
  }

  function OnesSum(s: Bytes): Word16 {
    if s == [] then 0
    else if |s| == 1 then WordOf(s[0], 0)
    else OnesAdd(WordOf(s[0], s[1]), OnesSum(s[2..]))
  }

  /** A sum folded to 16 bits: what is left of it modulo 65535, but 0 only for 0. */
  function Folded(sum: nat): Word16 {
    if sum == 0 then 0 else if sum % 65535 == 0 then 65535 else sum % 65535
  }

  lemma FoldedIs(sum: nat, f: Word16, q: int)
    requires sum == 65535 * q + f && (f == 0 <==> sum == 0)
    ensures Folded(sum) == f
  {
    if f == 65535 {
      QuotientIs(sum, 65535, q + 1, 0);
    } else {
      QuotientIs(sum, 65535, q, f);
    }
  }

  lemma FoldedOf(sum: nat) returns (q: nat)
    ensures sum == 65535 * q + Folded(sum) && (Folded(sum) == 0 <==> sum == 0)
  {
    q := sum / 65535;
    if sum != 0 && sum % 65535 == 0 {
      q := q - 1;
    }
  }

  /** Carrying around after every word or once at the end gives the same sum. */
  lemma {:induction false} FoldOnce(s: Bytes)
    ensures OnesSum(s) == Folded(WordSum(s))
  {
    if |s| >= 2 {
      FoldOnce(s[2..]);
      var q := FoldedOf(WordSum(s[2..]));
      var w := WordOf(s[0], s[1]);
      var r := OnesSum(s[2..]);
      FoldedIs(WordSum(s), OnesSum(s), if w + r >= TWO_TO_THE_16 then q + 1 else q);
    }
  }

  /** The 32-bit accumulator cannot overflow on a segment. */
  lemma {:induction false} WordSumBound(s: Bytes)
    ensures WordSum(s) <= (|s| + 1) / 2 * 65535
  {
    if |s| >= 2 {
      WordSumBound(s[2..]);
      assert (|s| + 1) / 2 == 1 + (|s[2..]| + 1) / 2;
    }
  }

  lemma {:induction false} WordSumSplit(s: Bytes, t: Bytes)
    requires |s| % 2 == 0
    ensures WordSum(s + t) == WordSum(s) + WordSum(t)
  {
    if s == [] {
      assert s + t == t;
    } else {
      WordSumSplit(s[2..], t);
      assert (s + t)[2..] == s[2..] + t;
    }
  }

  /** Adds the words of `bytes` to a running sum, in 32 bits. */
  method AddWords(sum: Word32, bytes: Bytes) returns (total: Word32)
    ensures sum + WordSum(bytes) < TWO_TO_THE_32 ==> total == sum + WordSum(bytes)
  {
    hide WordSum;
    total := sum;
    var i := 0;
    assert bytes[0..] == bytes;
    while i + 1 < |bytes|
      invariant 0 <= i <= |bytes|
      invariant sum + WordSum(bytes) < TWO_TO_THE_32 ==> total + WordSum(bytes[i..]) == sum + WordSum(bytes)
    {
      TakeWord(bytes[i..]);
      assert bytes[i..][2..] == bytes[i + 2..];
      total := (total + WordOf(bytes[i], bytes[i + 1])) % TWO_TO_THE_32;
      i := i + 2;
    }
    TakeLast(bytes[i..]);
    if i < |bytes| {
      total := (total + WordOf(bytes[i], 0)) % TWO_TO_THE_32;
    }
  }

  lemma TakeWord(s: Bytes)
    requires |s| >= 2
    ensures WordSum(s) == WordOf(s[0], s[1]) + WordSum(s[2..])
  {
  }

  lemma TakeLast(s: Bytes)
    requires |s| <= 1
    ensures WordSum(s) == if s == [] then 0 else WordOf(s[0], 0)
  {
  }

  /** Folds the carries back until none is left, and complements. */
  method FinishChecksum(sum: Word32) returns (checksum: Word16)
    ensures checksum == 65535 - Folded(sum)
  {
    var rest := sum;
    ghost var q := 0;
    while rest / TWO_TO_THE_16 != 0
      invariant 0 <= rest < TWO_TO_THE_32
      invariant sum == 65535 * q + rest && (rest == 0 <==> sum == 0)
      decreases rest
    {
      q := q + rest / TWO_TO_THE_16;
      rest := rest % TWO_TO_THE_16 + rest / TWO_TO_THE_16;
    }
    FoldedIs(sum, rest, q);
    checksum := (TWO_TO_THE_32 - 1 - rest) % TWO_TO_THE_16;
  }

  /** The pseudo-header: the addresses, the 32-bit length, three zeros and the protocol. */
  function Pseudo(source: Address, destination: Address, length: nat): (s: Bytes)
    ensures |s| == PSEUDO_SIZE
  {
    source + destination + BigEndian(length, 4) + [0, 0, 0, NEXT_TCP]
  }

  method TcpChecksum(source: Address, destination: Address, segment: Bytes) returns (checksum: Word16)
    ensures |segment| <= SEGMENT_LIMIT ==>
              checksum == 65535 - OnesSum(Pseudo(source, destination, |segment|) + segment)
  {
    hide WordSum, OnesSum, Folded, Pseudo;
    var pseudo := Pseudo(source, destination, |segment|);
    var sum := 0;
    sum := AddWords(sum, pseudo);
    sum := AddWords(sum, segment);
    checksum := FinishChecksum(sum);
    WordSumBound(pseudo);
    WordSumBound(segment);
    WordSumSplit(pseudo, segment);
    FoldOnce(pseudo + segment);
  }

  /** The segment with its checksum field written. */
  function Stamped(segment: Bytes, checksum: Word16): (s: Bytes)
    requires |segment| >= CHECKSUM_OFFSET + 2
    ensures |s| == |segment|
  {
    segment[..16] + [checksum / 256, checksum % 256] + segment[18..]
  }

  /**
   A receiver that sums the pseudo-header and the stamped segment gets all ones: the
   checksum is correct for every segment whose field was zero, odd lengths included.
   */
  lemma ChecksumVerifies(source: Address, destination: Address, segment: Bytes)
    requires |segment| >= CHECKSUM_OFFSET + 2 && segment[16] == segment[17] == 0
    ensures var pseudo := Pseudo(source, destination, |segment|);
            OnesSum(pseudo + Stamped(segment, 65535 - OnesSum(pseudo + segment))) == 0xffff
  {
    hide WordSum, OnesSum, Folded, Pseudo;
    var pseudo := Pseudo(source, destination, |segment|);
    var checksum := 65535 - OnesSum(pseudo + segment);
    var stamped := Stamped(segment, checksum);
    SumAround(segment);
    SumAround(stamped);
    assert stamped[..16] == segment[..16] && stamped[18..] == segment[18..];
    WordSumSplit(pseudo, segment);
    WordSumSplit(pseudo, stamped);
    FoldOnce(pseudo + segment);
    FoldOnce(pseudo + stamped);
    var q := FoldedOf(WordSum(pseudo + segment));
    FoldedIs(WordSum(pseudo + stamped), 65535, q);
  }

  lemma SumAround(segment: Bytes)
    requires |segment| >= CHECKSUM_OFFSET + 2
    ensures WordSum(segment) == WordSum(segment[..16]) + WordOf(segment[16], segment[17]) + WordSum(segment[18..])
  {
    hide WordSum;
    assert segment == segment[..16] + segment[16..];
    WordSumSplit(segment[..16], segment[16..]);
    TakeWord(segment[16..]);
    assert segment[16..][2..] == segment[18..];
  }
}
