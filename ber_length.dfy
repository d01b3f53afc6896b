/** Length octets (X.690 section 8.1.3) as `Decoder::dec_len` reads them. */
module BerLength {
  import opened Bits
  import opened BerTypes

  datatype LengthResult = Length(value: u64, next: nat) | LengthError(error: Error)

  /** The length whose octets start at `off`, and where its octets end;
      never more than eight length bytes, so the value fits `uint64_t`. */
  function LengthStep(data: seq<byte>, off: nat): (r: LengthResult)
    requires off <= |data|
    ensures r.Length? ==> off + 1 <= r.next <= |data|
  {
    if |data| - off < 1 then LengthError(DataTruncated)
    else
      var code := data[off];
      if code < 0x80 then Length(code, off + 1)
      else if code == 0xFF then LengthError(InvalidLengthLength)
      else
        var k := BitAnd(code, 0x7F);
        if k > 8 then LengthError(BigLengthLength)
        else if |data| - (off + 1) < k then LengthError(DataTruncated)
        else
          var octets := data[off + 1..off + 1 + k];
          DigitsBound(octets, 8);
          Pow2Monotone(8 * k, 64);
          Pow2Of64();
          Length(Digits(octets, 8), off + 1 + k)
  }

  /** The `k` big-endian bytes of `n`: the long-form content an encoder writes. */
  function BigEndianBytes(n: nat, k: nat): (r: seq<byte>)
    ensures |r| == k
  {
    if k == 0 then [] else BigEndianBytes(n / 256, k - 1) + [n % 256]
  }

  lemma {:induction false} BigEndianBytesValue(n: nat, k: nat)
    requires n < Pow2(8 * k)
    ensures Digits(BigEndianBytes(n, k), 8) == n
  {
    if k == 0 {
      assert Pow2(0) == 1;
    } else {
      var r := BigEndianBytes(n, k);
      assert r[..k - 1] == BigEndianBytes(n / 256, k - 1);
      Pow2Split(8 * (k - 1), 8, 8 * k);
      assert Pow2(8) == 256;
      assert 8 * k == 8 * (k - 1) + 8;
      DivBelow(n, 256, Pow2(8 * (k - 1)));
      BigEndianBytesValue(n / 256, k - 1);
    }
  }

  /** What each kind of first length octet leads to: a short form is its own
      value, 0xFF is reserved, a count above 8 is refused, and a count k of
      at most 8 (0 for the bare 0x80) takes the next k bytes big-endian, or
      reports truncation when fewer than k remain. */
  lemma LengthOutcomes(data: seq<byte>, off: nat)
    requires off <= |data|
    ensures off == |data| ==> LengthStep(data, off) == LengthError(DataTruncated)
    ensures off < |data| && data[off] < 0x80 ==> LengthStep(data, off) == Length(data[off], off + 1)
    ensures off < |data| && data[off] == 0xFF ==> LengthStep(data, off) == LengthError(InvalidLengthLength)
    ensures off < |data| && 0x88 < data[off] < 0xFF ==> LengthStep(data, off) == LengthError(BigLengthLength)
    ensures off < |data| && 0x80 <= data[off] <= 0x88 ==>
      var k := data[off] - 0x80;
      var r := LengthStep(data, off);
      if |data| - (off + 1) < k then r == LengthError(DataTruncated)
      else r.Length? && r.value == Digits(data[off + 1..off + 1 + k], 8) && r.next == off + 1 + k
  {
    if off < |data| && data[off] >= 0x80 {
      LowSeven(data[off]);
    }
  }

  /** The count of a long-form first octet: its low seven bits. */
  lemma LowSeven(c: byte)
    requires c >= 0x80
    ensures BitAnd(c, 0x7F) == c - 0x80
  {
    LowMask(c, 7);
    Pow2Of8();
    DivModUnique(c, 0x80, 1, c - 0x80);
  }

  /** The short form round-trips: a value below 0x80 written as one octet
      decodes to itself and consumes that octet. */
  lemma ShortFormRoundTrip(n: nat, before: seq<byte>, after: seq<byte>)
    requires n < 0x80
    ensures LengthStep(before + [n] + after, |before|) == Length(n, |before| + 1)
  {
    assert (before + [n] + after)[|before|] == n;
  }

  /** The long form round-trips: the count octet 0x80 + k followed by the k
      big-endian bytes of any n below 2^(8k) decodes to n and consumes
      exactly 1 + k octets, whatever follows. */
  lemma LongFormRoundTrip(n: nat, k: nat, before: seq<byte>, after: seq<byte>)
    requires 1 <= k <= 8 && n < Pow2(8 * k)
    ensures var r := LengthStep(before + [0x80 + k] + BigEndianBytes(n, k) + after, |before|);
            r.Length? && r.value == n && r.next == |before| + 1 + k
  {
    var octets := BigEndianBytes(n, k);
    var data := before + [0x80 + k] + octets + after;
    var off := |before|;
    assert data[off] == 0x80 + k;
    assert data[off + 1..off + 1 + k] == octets;
    LengthOutcomes(data, off);
    BigEndianBytesValue(n, k);
  }
}
