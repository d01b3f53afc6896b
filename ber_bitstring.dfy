/** BIT STRING content (X.690 section 8.6) as `Decoder::dec_bit_string`
    reports it: the leading unused-bits octet is dropped and the low
    `unused` bits of the last content byte are cleared. */
module BerBitString {
  import opened Bits
  import opened BerTypes

  /** `last &= ~((1 << unused) - 1)` on a `uint8_t`. For unused up to 7 the
      mask keeps bits unused..7; from 8 on it keeps none. (In C++ the shift
      is undefined from 31 on; the model keeps the same answer there.) */
  function MaskUnused(last: byte, unused: byte): byte
  {
    if unused <= 7 then
      Pow2Monotone(unused, 7);
      assert Pow2(7) == 0x80;
      BitAnd(last, 0xFF - (Pow2(unused) - 1))
    else 0
  }

  /** The effect of `dec_bit_string(len)` with the cursor at `off`. */
  function BitStringStep(data: seq<byte>, off: nat, len: u64): (r: Step)
    requires off <= |data|
    ensures r.status.Consumed? ==> off <= r.status.next <= |data|
    ensures r.status.Failed? ==> r.events == []
  {
    if len == 0 then Step([], Failed(BitStringMissingUnused))
    else if |data| - off < len then Step([], Failed(DataTruncated))
    else
      var unused := data[off];
      var v := data[off + 1..off + len];
      var bits := if |v| > 0 then v[..|v| - 1] + [MaskUnused(v[|v| - 1], unused)] else v;
      Step([BitString(bits)], Consumed(off + len))
  }

  /** When unused is at most 7, masking clears exactly the low `unused` bits
      of the last byte and leaves its higher bits as they were. */
  lemma MaskClearsLowBits(last: byte, unused: byte)
    requires unused <= 7
    ensures MaskUnused(last, unused) % Pow2(unused) == 0
    ensures MaskUnused(last, unused) / Pow2(unused) == last / Pow2(unused)
  {
    var p := Pow2(unused);
    Pow2Monotone(unused, 7);
    Pow2Of8();
    var q := last / p;
    var c := BitAnd(last, 0x100 - p);
    assert c == q * p by {
      ClearLow(last, 8, unused);
    }
    assert MaskUnused(last, unused) == c;
    DivModUnique(q * p, p, q, 0);
  }

  /** BIT STRING needs its unused-bits octet and all of its content. When it
      has them it consumes the content and reports len - 1 bytes: the
      content after the unused-bits octet, unchanged except that the last
      byte has its low `unused` bits cleared (all bits, for unused of 8 or
      more). */
  lemma BitStringMeaning(data: seq<byte>, off: nat, len: u64)
    requires off <= |data|
    ensures len == 0 ==> BitStringStep(data, off, len) == Step([], Failed(BitStringMissingUnused))
    ensures len > 0 && |data| - off < len ==> BitStringStep(data, off, len) == Step([], Failed(DataTruncated))
    ensures len > 0 && |data| - off >= len ==>
      var s := BitStringStep(data, off, len);
      var unused := data[off];
      && s.status == Consumed(off + len)
      && |s.events| == 1 && s.events[0].BitString?
      && |s.events[0].bits| == len - 1
      && (forall k :: 0 <= k < len - 2 ==> s.events[0].bits[k] == data[off + 1 + k])
      && (len >= 2 && unused <= 7 ==>
            s.events[0].bits[len - 2] % Pow2(unused) == 0 &&
            s.events[0].bits[len - 2] / Pow2(unused) == data[off + len - 1] / Pow2(unused))
      && (len >= 2 && unused > 7 ==> s.events[0].bits[len - 2] == 0)
  {
    if len >= 2 && |data| - off >= len && data[off] <= 7 {
      MaskClearsLowBits(data[off + len - 1], data[off]);
    }
  }
}
