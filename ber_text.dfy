/** PrintableString and UTCTime content as `Decoder::dec_printable_string`
    and `Decoder::dec_utc_time` copy it: every byte must lie in 0x1F..0x7F,
    and the text is passed on unchanged. */
module BerText {
  import opened BerTypes

  /** The character check shared by both string types. */
  predicate TextByte(b: byte)
  {
    !(b < 0x1F || b > 0x7F)
  }

  /** Bytes from..to-1 all pass the character check. */
  ghost predicate AllText(data: seq<byte>, from: nat, to: nat)
    requires from <= to <= |data|
  {
    forall k :: from <= k < to ==> TextByte(data[k])
  }

  /** The loop of both string routines over `count` bytes from `off`: it
      stops at the first byte that is missing or fails the check. */
  function TextScan(data: seq<byte>, off: nat, count: nat): (r: Status)
    requires off <= |data|
    ensures r.Consumed? ==> r.next == off + count <= |data| && AllText(data, off, r.next)
    decreases count
  {
    if count == 0 then Consumed(off)
    else if |data| - off < 1 then Failed(DataTruncated)
    else if !TextByte(data[off]) then Failed(InvalidDate)
    else TextScan(data, off + 1, count - 1)
  }

  /** The scan's outcome without the loop: a failing byte among those
      present wins over truncation, and with neither the scan consumes all
      `count` bytes. */
  lemma {:induction false} TextScanOutcome(data: seq<byte>, off: nat, count: nat)
    requires off <= |data|
    decreases count
    ensures var end := if off + count <= |data| then off + count else |data|;
      TextScan(data, off, count) ==
        if !AllText(data, off, end) then Failed(InvalidDate)
        else if off + count > |data| then Failed(DataTruncated)
        else Consumed(off + count)
  {
    if count > 0 && off < |data| && TextByte(data[off]) {
      TextScanOutcome(data, off + 1, count - 1);
      var end := if off + count <= |data| then off + count else |data|;
      if !AllText(data, off, end) {
        var k :| off <= k < end && !TextByte(data[k]);
        assert k != off;
      }
    }
  }

  /** The effect of `dec_printable_string(len)` with the cursor at `off`. */
  function PrintableStringStep(data: seq<byte>, off: nat, len: u64): (r: Step)
    requires off <= |data|
    ensures r.status.Consumed? ==> off <= r.status.next <= |data|
    ensures r.status.Failed? ==> r.events == []
  {
    match TextScan(data, off, len)
    case Failed(e) => Step([], Failed(e))
    case Consumed(n) => Step([PrintableString(AsText(data[off..n]))], Consumed(n))
  }

  /** The effect of `dec_utc_time(len)` with the cursor at `off`. */
  function UtcTimeStep(data: seq<byte>, off: nat, len: u64): (r: Step)
    requires off <= |data|
    ensures r.status.Consumed? ==> off <= r.status.next <= |data|
    ensures r.status.Failed? ==> r.events == []
  {
    if len < MinUtcTimeLen || len > MaxUtcTimeLen then Step([], Failed(InvalidUtcTimeLen))
    else if |data| - off < len then Step([], Failed(DataTruncated))
    else
      match TextScan(data, off, len)
      case Failed(e) => Step([], Failed(e))
      case Consumed(n) => Step([UtcTime(AsText(data[off..n]))], Consumed(n))
  }

  /** A PrintableString is accepted exactly when all `len` bytes are present
      and pass the check, and then its text is those bytes. */
  lemma PrintableStringMeaning(data: seq<byte>, off: nat, len: u64)
    requires off <= |data|
    ensures var s := PrintableStringStep(data, off, len);
      && (s.status.Consumed? <==> off + len <= |data| && AllText(data, off, off + len))
      && (s.status.Failed? ==> s.events == [])
      && (s.status.Consumed? ==>
            s.status.next == off + len && |s.events| == 1 && s.events[0].PrintableString? &&
            |s.events[0].text| == len &&
            forall k :: 0 <= k < len ==> s.events[0].text[k] as int == data[off + k])
  {
    TextScanOutcome(data, off, len);
  }

  /** A UTCTime is accepted exactly when its length is 10 to 17, all its
      bytes are present and pass the check; a bad length is refused before
      any byte is looked at, then truncation, then a bad byte. */
  lemma UtcTimeMeaning(data: seq<byte>, off: nat, len: u64)
    requires off <= |data|
    ensures var s := UtcTimeStep(data, off, len);
      && (s.status.Consumed? <==>
            MinUtcTimeLen <= len <= MaxUtcTimeLen && off + len <= |data| && AllText(data, off, off + len))
      && (s.status.Failed? ==> s.events == [])
      && (!(MinUtcTimeLen <= len <= MaxUtcTimeLen) ==> s.status == Failed(InvalidUtcTimeLen))
      && (MinUtcTimeLen <= len <= MaxUtcTimeLen && off + len > |data| ==> s.status == Failed(DataTruncated))
      && (MinUtcTimeLen <= len <= MaxUtcTimeLen && off + len <= |data| && !AllText(data, off, off + len) ==>
            s.status == Failed(InvalidDate))
      && (s.status.Consumed? ==>
            s.status.next == off + len && |s.events| == 1 && s.events[0].UtcTime? &&
            |s.events[0].text| == len &&
            forall k :: 0 <= k < len ==> s.events[0].text[k] as int == data[off + k])
  {
    TextScanOutcome(data, off, len);
  }
}
