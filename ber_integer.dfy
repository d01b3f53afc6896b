/** INTEGER content (X.690 section 8.3) as `Decoder::dec_integer` reports
    it: the sign from the first byte, and for a negative value the bytewise
    complement of the content. The carry that would add one is initialised
    to zero and can never become non-zero, so no +1 is applied and the
    magnitude never grows by a byte. */
module BerInteger {
  import opened Bits
  import opened BerTypes

  /** `~b` stored back into a `uint8_t`. */
  function Not8(b: byte): byte
  {
    255 - b
  }

  /** Every byte complemented, in the same order. */
  function Complement(s: seq<byte>): seq<byte>
  {
    seq(|s|, k requires 0 <= k < |s| => Not8(s[k]))
  }

  /** The effect of `dec_integer(len)` with the cursor at `off`. */
  function IntegerStep(data: seq<byte>, off: nat, len: u64): (r: Step)
    requires off <= |data|
    ensures r.status.Consumed? ==> off <= r.status.next <= |data|
    ensures r.status.Failed? ==> r.events == []
  {
    if |data| - off < len then Step([], Failed(DataTruncated))
    else
      var content := data[off..off + len];
      var negative := len > 0 && content[0] > 0x7F;
      Step([Integer(if negative then Complement(content) else content, negative)], Consumed(off + len))
  }

  /** The two's-complement value of the content octets (X.690 section 8.3.3). */
  function TwosComplement(s: seq<byte>): int
  {
    var v := Digits(s, 8);
    if s != [] && v >= Pow2(8 * |s| - 1) then v - Pow2(8 * |s|) else v
  }

  /** Complementing every byte maps value v of n bytes to 2^(8n) - 1 - v. */
  lemma {:induction false} ComplementValue(s: seq<byte>)
    ensures Digits(Complement(s), 8) == Pow2(8 * |s|) - 1 - Digits(s, 8)
  {
    if s == [] {
      assert Pow2(0) == 1;
    } else {
      var init := s[..|s| - 1];
      assert Complement(s)[..|s| - 1] == Complement(init);
      ComplementValue(init);
      Pow2Split(8 * |init|, 8, 8 * |s|);
      assert Pow2(8) == 256;
      assert 8 * |s| == 8 * |init| + 8;
      var p := Pow2(8 * |init|);
      assert Digits(Complement(s), 8) == (p - 1 - Digits(init, 8)) * 256 + 255 - s[|s| - 1];
      assert Pow2(8 * |s|) == p * 256;
    }
  }

  /** The first byte's high bit is set exactly when the unsigned value of
      the content reaches 2^(8n - 1). */
  lemma SignBit(s: seq<byte>)
    requires s != []
    ensures s[0] > 0x7F <==> Digits(s, 8) >= Pow2(8 * |s| - 1)
  {
    var rest := s[1..];
    assert s == [s[0]] + rest;
    DigitsCons(s[0], rest, 8);
    Pow2Of8();
    DigitsBound(rest, 8);
    Pow2Split(7, 8 * |rest|, 8 * |s| - 1);
    SignSplit(s[0], Pow2(8 * |rest|), Digits(rest, 8), Pow2(7));
  }

  /** A leading byte b in front of a tail worth less than p. */
  lemma SignSplit(b: nat, p: nat, tail: nat, c: nat)
    requires b < 256 && tail < p && c == 128
    ensures b > 0x7F <==> b * p + tail >= c * p
  {
    if b > 0x7F {
      MulLe(128, b, p);
    } else {
      MulLe(b, 127, p);
    }
  }

  /** What the visitor receives for INTEGER content that is present: a
      magnitude as long as the content, a sign flag that is set exactly for
      negative values, the value itself when it is not negative and, when it
      is, one less than its absolute value. */
  lemma IntegerMeaning(data: seq<byte>, off: nat, len: u64)
    requires off <= |data|
    ensures |data| - off < len ==> IntegerStep(data, off, len) == Step([], Failed(DataTruncated))
    ensures |data| - off >= len ==>
      var content := data[off..off + len];
      var s := IntegerStep(data, off, len);
      && s.status == Consumed(off + len)
      && |s.events| == 1 && s.events[0].Integer?
      && |s.events[0].magnitude| == len
      && (s.events[0].negative <==> TwosComplement(content) < 0)
      && (!s.events[0].negative ==> Digits(s.events[0].magnitude, 8) == TwosComplement(content))
      && (s.events[0].negative ==> Digits(s.events[0].magnitude, 8) == -TwosComplement(content) - 1)
  {
    if |data| - off >= len {
      var content := data[off..off + len];
      DigitsBound(content, 8);
      if len > 0 {
        SignBit(content);
        ComplementValue(content);
      }
    }
  }

  /** The encodings of -1, -128 and -255: the reported magnitudes are 0x00, 0x7F and 0x00FE, each one below the
      absolute value, and none gains a byte. */
  lemma NegativeExamples()
    ensures IntegerStep([0xFF], 0, 1) == Step([Integer([0x00], true)], Consumed(1))
    ensures IntegerStep([0x80], 0, 1) == Step([Integer([0x7F], true)], Consumed(1))
    ensures IntegerStep([0xFF, 0x01], 0, 2) == Step([Integer([0x00, 0xFE], true)], Consumed(2))
  {
    assert [0xFF][0..1] == [0xFF];
    assert Complement([0xFF]) == [0x00];
    assert [0x80][0..1] == [0x80];
    assert Complement([0x80]) == [0x7F];
    assert [0xFF, 0x01][0..2] == [0xFF, 0x01];
    assert Complement([0xFF, 0x01]) == [0x00, 0xFE];
  }
}
