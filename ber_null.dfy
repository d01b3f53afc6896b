/** NULL content (X.690 section 8.8) as `Decoder::dec_null` accepts it: no
    content octets, or, as a compatibility allowance, one zero octet. */
module BerNull {
  import opened BerTypes

  /** The effect of `dec_null(len)` with the cursor at `off`. */
  function NullStep(data: seq<byte>, off: nat, len: u64): (r: Step)
    requires off <= |data|
    ensures r.status.Consumed? ==> off <= r.status.next <= |data|
    ensures r.status.Failed? ==> r.events == []
  {
    if len == 0 then Step([Null], Consumed(off))
    else if len != 1 then Step([], Failed(WrongNullLength))
    else if |data| - off < 1 then Step([], Failed(DataTruncated))
    else if data[off] != 0 then Step([], Failed(WrongNullValue))
    else Step([Null], Consumed(off + 1))
  }

  /** NULL is accepted for exactly the two encodings `05 00` and `05 01 00`;
      then it reports one Null and consumes its content. Otherwise nothing is
      reported and the error names the reason. */
  lemma NullOutcomes(data: seq<byte>, off: nat, len: u64)
    requires off <= |data|
    ensures var s := NullStep(data, off, len);
      && (s.status.Consumed? <==> len == 0 || (len == 1 && off < |data| && data[off] == 0))
      && (s.status.Consumed? ==> s.events == [Null] && s.status.next == off + len)
      && (s.status.Failed? ==> s.events == [])
      && (len > 1 ==> s.status == Failed(WrongNullLength))
      && (len == 1 && off == |data| ==> s.status == Failed(DataTruncated))
      && (len == 1 && off < |data| && data[off] != 0 ==> s.status == Failed(WrongNullValue))
  {
  }
}
