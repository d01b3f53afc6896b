/** `class Decoder` of asn1.cpp: a cursor over a byte buffer that walks BER
    elements and reports each value to a visitor. The visitor's callbacks
    are recorded in `trace`; a `FormatError` thrown by the source is a
    `Failed` status returned here. Every method is proved to make exactly
    the callbacks, and to return exactly the status, that the matching
    step function of the Ber* modules gives for the cursor it started at. */
module Asn1Decoder {
  import opened Bits
  import opened BerTypes
  import opened BerLength
  import opened BerInteger
  import opened BerNull
  import opened BerBitString
  import opened BerOid
  import opened BerText
  import opened BerWalk

  /** The sequence reversed (`std::reverse`). */
  function Reverse(s: seq<byte>): (r: seq<byte>)
    ensures |r| == |s| && forall i :: 0 <= i < |s| ==> r[i] == s[|s| - 1 - i]
  {
    if s == [] then [] else Reverse(s[1..]) + [s[0]]
  }

  /** A `bool` stored into a `uint8_t`. */
  function Bit(c: bool): byte
  {
    if c then 1 else 0
  }

  /** A component read so far, `c`, in front of what the rest of the read gives. */
  ghost function Extend(c: seq<byte>, r: VlqResult): VlqResult
  {
    match r
    case VlqTruncated => VlqTruncated
    case Vlq(gs, n) => Vlq(c + gs, n)
  }

  /** Components decoded so far, `cs`, in front of what the rest of the OID gives. */
  ghost function Prepend(cs: seq<seq<byte>>, r: OidResult): OidResult
  {
    match r
    case OidTruncated => OidTruncated
    case OidParsed(rest, n) => OidParsed(cs + rest, n)
  }

  lemma ExtendAssoc(a: seq<byte>, b: seq<byte>, r: VlqResult)
    ensures Extend(a, Extend(b, r)) == Extend(a + b, r)
  {
    if r.Vlq? {
      assert a + (b + r.groups) == (a + b) + r.groups;
    }
  }

  lemma PrependAssoc(a: seq<seq<byte>>, b: seq<seq<byte>>, r: OidResult)
    ensures Prepend(a, Prepend(b, r)) == Prepend(a + b, r)
  {
    if r.OidParsed? {
      assert a + (b + r.components) == (a + b) + r.components;
    }
  }

  /** An element: its tag byte, its length, then its content. */
  lemma ElementUnfold(data: seq<byte>, off: nat)
    requires off < |data| && LengthStep(data, off + 1).Length?
    ensures var l := LengthStep(data, off + 1);
      ElementStep(data, off) == ContentStep(data, TagType(data[off]), l.next, l.value)
  {
  }

  /** One more turn of the element loop. */
  lemma ElementsUnfold(data: seq<byte>, start: nat, off: nat, len: u64)
    requires start <= off <= |data| && off - start < len
    ensures var e := ElementStep(data, off);
      ElementsStep(data, start, off, len) ==
        if e.status.Failed? then e else Then(e.events, ElementsStep(data, start, e.status.next, len))
  {
  }

  /** The element loop has stopped: exactly `len` bytes or too many. */
  lemma ElementsExit(data: seq<byte>, start: nat, off: nat, len: u64)
    requires start <= off <= |data| && off - start >= len
    ensures ElementsStep(data, start, off, len) ==
      if off - start == len then Step([], Consumed(off)) else Step([], Failed(ElementsTooBig))
  {
  }

  lemma ConcatAssoc(a: seq<Event>, b: seq<Event>, c: seq<Event>)
    ensures (a + b) + c == a + (b + c)
  {
  }

  lemma ThenAssoc(a: seq<Event>, b: seq<Event>, r: Step)
    ensures Then(a, Then(b, r)) == Then(a + b, r)
  {
    assert a + (b + r.events) == (a + b) + r.events;
  }

  /** One byte of a component: the last one when its high bit is clear,
      otherwise followed by the rest of the component. */
  lemma VlqUnfold(data: seq<byte>, off: nat)
    requires off < |data|
    ensures var g := BitAnd(data[off], 0x7F);
      VlqStep(data, off) == if BitAnd(data[off], 0x80) == 0 then Vlq([g], off + 1)
                            else Extend([g], VlqStep(data, off + 1))
  {
  }

  /** One turn of the component reader: the group of the byte at `off` joins
      the groups read so far, and the read ends there when its high bit is clear. */
  lemma GroupStep(data: seq<byte>, start: nat, c: seq<byte>, off: nat)
    requires start <= off < |data| && VlqStep(data, start) == Extend(c, VlqStep(data, off))
    ensures var b := data[off];
      var g := BitAnd(b, 0x7F);
      && (BitAnd(b, 0x80) == 0 ==> VlqStep(data, start) == Vlq(c + [g], off + 1))
      && (BitAnd(b, 0x80) != 0 ==> VlqStep(data, start) == Extend(c + [g], VlqStep(data, off + 1)))
  {
    VlqUnfold(data, off);
    ExtendAssoc(c, [BitAnd(data[off], 0x7F)], VlqStep(data, off + 1));
  }

  /** One component of an OID whose count is not yet zero. */
  lemma OidUnfold1(data: seq<byte>, off: nat, remaining: u64)
    requires off <= |data| && remaining != 0 && VlqStep(data, off).Vlq?
    ensures var v := VlqStep(data, off);
      OidComponents(data, off, remaining) == Prepend([Repack(v.groups)], OidComponents(data, v.next, Wrap64(remaining - |v.groups|)))
  {
  }

  /** One turn of the repacking loop at position j, after |g| - 1 - j
      turns: what it writes, the bits it carries on, and the next shift. */
  lemma RepackTurn(g: seq<byte>, j: nat, h: nat, b: nat)
    requires j < |g| && h == Shift(|g| - 1 - j) && b == Carry(g, |g| - 1 - j)
    ensures BitOr(Prev(g, j) * Pow2(h), b) % 0x100 == RepackAt(g, j)
    ensures Shr(Prev(g, j), 8 - h) == Carry(g, |g| - j)
    ensures Shift(|g| - j) == if h - 1 < 1 then 7 else h - 1
  {
    ShiftNext(|g| - 1 - j);
  }

  /** `remaining--` once more on a count already reduced modulo 2^64. */
  lemma CountDown(remaining: u64, c: seq<byte>, g: byte, left: u64)
    requires left == Wrap64(remaining as int - |c|)
    ensures Wrap64(left as int - 1) == Wrap64(remaining as int - |c + [g]|)
  {
    var x := remaining as int - |c|;
    var m := 0x1_0000_0000_0000_0000;
    var q := x / m;
    assert x == q * m + left;
    DivModUnique(x - 1, m, if left == 0 then q - 1 else q, Wrap64(left as int - 1));
  }

  /** `h--; if (h < 1) h = 7;` follows Shift. */
  lemma {:induction false} ShiftNext(k: nat)
    ensures Shift(k + 1) == if Shift(k) == 1 then 7 else Shift(k) - 1
  {
    if k >= 7 {
      ShiftNext(k - 7);
    }
  }

  /** One more length byte: `(len << 8) + b` shifts the value so far beneath
      the new byte and, with at most eight bytes, never wraps. */
  lemma LengthDigit(octets: seq<byte>, i: nat)
    requires i < |octets| <= 8
    ensures Digits(octets[..i + 1], 8) == Digits(octets[..i], 8) * 0x100 + octets[i]
    ensures Digits(octets[..i + 1], 8) < 0x1_0000_0000_0000_0000
  {
    var s := octets[..i + 1];
    assert s[..i] == octets[..i];
    Pow2Of64();
    DigitsBound(s, 8);
    Pow2Monotone(8 * (i + 1), 64);
  }

  class Decoder {
    /** `_data`: the buffer being decoded. */
    const data: seq<byte>
    /** `_offset`: the cursor. */
    var offset: nat
    /** The visitor callbacks made so far, oldest first. */
    var trace: seq<Event>

    ghost predicate Valid()
      reads this
    {
      |data| < 0x1_0000_0000_0000_0000 && offset <= |data|
    }

    constructor (bytes: seq<byte>)
      requires |bytes| < 0x1_0000_0000_0000_0000
      ensures data == bytes && offset == 0 && trace == [] && Valid()
    {
      data := bytes;
      offset := 0;
      trace := [];
    }

    /** `_chklen(n)`: whether n more bytes are there; the source throws
        "data truncated" where this returns false. */
    method ChkLen(n: nat) returns (ok: bool)
      requires Valid()
      ensures ok <==> n <= |data| - offset
    {
      ok := !(|data| - offset < n);
    }

    /** `dec_len()`. */
    method DecLen() returns (r: LengthResult)
      requires Valid()
      modifies this`offset
      ensures Valid()
      ensures r == LengthStep(data, old(offset))
      ensures r.Length? ==> offset == r.next
      ensures old(offset) <= offset
    {
      var ok := ChkLen(1);
      if !ok {
        return LengthError(DataTruncated);
      }
      var code := data[offset];
      offset := offset + 1;
      if code < 0x80 {
        return Length(code, offset);
      }
      if code == 0xFF {
        return LengthError(InvalidLengthLength);
      }
      var lenLen := BitAnd(code, 0x7F);
      if lenLen > 8 {
        return LengthError(BigLengthLength);
      }
      ok := ChkLen(lenLen);
      if !ok {
        return LengthError(DataTruncated);
      }
      ghost var octets := data[offset..offset + lenLen];
      var len: u64 := 0;
      var i := 0;
      while i < lenLen
        invariant 0 <= i <= lenLen && offset == old(offset) + 1 + i
        invariant len == Digits(octets[..i], 8)
      {
        LengthDigit(octets, i);
        len := (len * 0x100 + data[offset]) % 0x1_0000_0000_0000_0000;
        offset := offset + 1;
        i := i + 1;
      }
      assert octets[..i] == octets;
      return Length(len, offset);
    }

    /** `dec_integer(len)`. */
    method DecInteger(len: u64) returns (st: Status)
      requires Valid()
      modifies this
      ensures Valid()
      ensures var s := IntegerStep(data, old(offset), len);
        trace == old(trace) + s.events && st == s.status
      ensures st.Consumed? ==> offset == st.next
      ensures old(offset) <= offset
    {
      var ok := ChkLen(len);
      if !ok {
        return Failed(DataTruncated);
      }
      ghost var start := offset;
      var tmp: seq<byte> := [];
      var negative := false;
      var i := 0;
      while i < len
        invariant 0 <= i <= len && offset == start + i && trace == old(trace)
        invariant tmp == data[start..offset]
        invariant negative == (i > 0 && data[start] > 0x7F)
      {
        var b := data[offset];
        offset := offset + 1;
        if i == 0 && b > 0x7F {
          negative := true;
        }
        tmp := tmp + [b];
        i := i + 1;
      }
      var integer := tmp;
      if negative {
        integer := ComplementReversed(tmp);
      }
      trace := trace + [Integer(integer, negative)];
      return Consumed(offset);
    }

    /** The negative branch of `dec_integer`: from the last byte to the
        first, each complemented byte plus a carry that starts at zero and
        stays zero, then the result reversed. */
    static method ComplementReversed(tmp: seq<byte>) returns (integer: seq<byte>)
      ensures integer == Complement(tmp)
    {
      integer := [];
      var carry := false;
      var k := |tmp|;
      while k > 0
        invariant 0 <= k <= |tmp| && |integer| == |tmp| - k && !carry
        invariant forall j :: 0 <= j < |integer| ==> integer[j] == Not8(tmp[|tmp| - 1 - j])
      {
        k := k - 1;
        var x := Not8(tmp[k]);
        integer := integer + [(x + Bit(carry)) % 0x100];
        carry := carry && x == 0xFF;
      }
      if carry {
        integer := integer + [Bit(carry)];
      }
      integer := Reverse(integer);
    }

    /** `dec_null(len)`. */
    method DecNull(len: u64) returns (st: Status)
      requires Valid()
      modifies this
      ensures Valid()
      ensures var s := NullStep(data, old(offset), len);
        trace == old(trace) + s.events && st == s.status
      ensures st.Consumed? ==> offset == st.next
      ensures old(offset) <= offset
    {
      if len != 0 {
        if len != 1 {
          return Failed(WrongNullLength);
        }
        var ok := ChkLen(1);
        if !ok {
          return Failed(DataTruncated);
        }
        var b := data[offset];
        offset := offset + 1;
        if b != 0 {
          return Failed(WrongNullValue);
        }
      }
      trace := trace + [Null];
      return Consumed(offset);
    }

    /** `dec_bit_string(len)`. */
    method DecBitString(len: u64) returns (st: Status)
      requires Valid()
      modifies this
      ensures Valid()
      ensures var s := BitStringStep(data, old(offset), len);
        trace == old(trace) + s.events && st == s.status
      ensures st.Consumed? ==> offset == st.next
      ensures old(offset) <= offset
    {
      if len == 0 {
        return Failed(BitStringMissingUnused);
      }
      var ok := ChkLen(1);
      if !ok {
        return Failed(DataTruncated);
      }
      ghost var start := offset;
      var unused := data[offset];
      offset := offset + 1;
      var v: seq<byte> := [];
      var i := 0;
      while i < len - 1
        invariant 0 <= i <= len - 1 && offset == start + 1 + i <= |data| && trace == old(trace)
        invariant v == data[start + 1..offset]
      {
        ok := ChkLen(1);
        if !ok {
          return Failed(DataTruncated);
        }
        v := v + [data[offset]];
        offset := offset + 1;
        i := i + 1;
      }
      if |v| > 0 {
        assert v[..|v| - 1] + [MaskUnused(v[|v| - 1], unused)] == v[|v| - 1 := MaskUnused(v[|v| - 1], unused)];
        v := v[|v| - 1 := MaskUnused(v[|v| - 1], unused)];
      }
      trace := trace + [BitString(v)];
      return Consumed(offset);
    }

    /** `dec_oid(remaining)`: components are read while the count is not
        zero, each byte by byte until a byte with its high bit clear, and
        each is then packed in place from its last position to its first. */
    method DecOid(len: u64) returns (st: Status)
      requires Valid()
      modifies this
      ensures Valid()
      ensures var s := OidStep(data, old(offset), len);
        trace == old(trace) + s.events && st == s.status
      ensures st.Consumed? ==> offset == st.next
      ensures old(offset) <= offset
    {
      ghost var start := offset;
      var remaining := len;
      var oid: seq<seq<byte>> := [];
      while remaining != 0
        invariant Valid() && start <= offset && trace == old(trace)
        invariant OidComponents(data, start, len) == Prepend(oid, OidComponents(data, offset, remaining))
        decreases |data| - offset
      {
        ghost var compStart, rem0 := offset, remaining;
        var ok, component;
        ok, component, remaining := ReadGroups(remaining);
        if !ok {
          return Failed(DataTruncated);
        }
        component := RepackInPlace(component);
        OidUnfold1(data, compStart, rem0);
        PrependAssoc(oid, [component], OidComponents(data, offset, remaining));
        oid := oid + [component];
      }
      assert oid + [] == oid;
      trace := trace + [Oid(oid)];
      return Consumed(offset);
    }

    /** The inner `for` loop of `dec_oid`: bytes of one component until one
        with its high bit clear, each taking one from the count. */
    method ReadGroups(remaining: u64) returns (ok: bool, component: seq<byte>, left: u64)
      requires Valid()
      modifies this`offset
      ensures Valid()
      ensures var v := VlqStep(data, old(offset));
        && (ok <==> v.Vlq?)
        && (ok ==> component == v.groups && offset == v.next && left == Wrap64(remaining as int - |component|))
      ensures old(offset) <= offset
    {
      ghost var compStart := offset;
      component := [];
      left := remaining;
      while true
        invariant Valid() && offset == compStart + |component|
        invariant VlqStep(data, compStart) == Extend(component, VlqStep(data, offset))
        invariant left == Wrap64(remaining as int - |component|)
        decreases |data| - offset
      {
        ok := ChkLen(1);
        if !ok {
          return;
        }
        GroupStep(data, compStart, component, offset);
        var b := data[offset];
        offset := offset + 1;
        var g: byte := BitAnd(b, 0x7F);
        CountDown(remaining, component, g, left);
        left := Wrap64(left as int - 1);
        component := component + [g];
        if BitAnd(b, 0x80) == 0 {
          break;
        }
      }
    }

    /** The do-while loop of `dec_oid` over one component. */
    static method RepackInPlace(g: seq<byte>) returns (component: seq<byte>)
      requires |g| >= 1
      ensures component == Repack(g)
    {
      component := g;
      var j := |g| - 1;
      var h := 7;
      var b: nat := component[j];
      while true
        invariant 0 <= j < |g| && |component| == |g|
        invariant forall q :: 0 <= q <= j ==> component[q] == g[q]
        invariant forall q :: j < q < |g| ==> component[q] == RepackAt(g, q)
        invariant h == Shift(|g| - 1 - j) && b == Carry(g, |g| - 1 - j)
        decreases j
      {
        var pb: byte := if j >= 1 then component[j - 1] else 0;
        RepackTurn(g, j, h, b);
        component := component[j := BitOr(pb * Pow2(h), b) % 0x100];
        b := Shr(pb, 8 - h);
        h := h - 1;
        if h < 1 {
          h := 7;
        }
        if j == 0 {
          break;
        }
        j := j - 1;
      }
    }

    /** `dec_printable_string(len)`. The source reads on without a bounds
        check; here the end of the buffer stops it as truncation. */
    method DecPrintableString(len: u64) returns (st: Status)
      requires Valid()
      modifies this
      ensures Valid()
      ensures var s := PrintableStringStep(data, old(offset), len);
        trace == old(trace) + s.events && st == s.status
      ensures st.Consumed? ==> offset == st.next
      ensures old(offset) <= offset
    {
      ghost var start := offset;
      var s: string := [];
      var i := 0;
      while i < len
        invariant 0 <= i <= len && offset == start + i <= |data| && trace == old(trace)
        invariant AllText(data, start, offset)
        invariant TextScan(data, start, len) == TextScan(data, offset, len - i)
        invariant s == AsText(data[start..offset])
      {
        var ok := ChkLen(1);
        if !ok {
          return Failed(DataTruncated);
        }
        var chr := data[offset];
        offset := offset + 1;
        if !TextByte(chr) {
          return Failed(InvalidDate);
        }
        s := s + [chr as char];
        i := i + 1;
      }
      trace := trace + [PrintableString(s)];
      return Consumed(offset);
    }

    /** `dec_utc_time(len)`. */
    method DecUtcTime(len: u64) returns (st: Status)
      requires Valid()
      modifies this
      ensures Valid()
      ensures var s := UtcTimeStep(data, old(offset), len);
        trace == old(trace) + s.events && st == s.status
      ensures st.Consumed? ==> offset == st.next
      ensures old(offset) <= offset
    {
      if len < MinUtcTimeLen || len > MaxUtcTimeLen {
        return Failed(InvalidUtcTimeLen);
      }
      var ok := ChkLen(len);
      if !ok {
        return Failed(DataTruncated);
      }
      ghost var start := offset;
      var s: string := [];
      var i := 0;
      while i < len
        invariant 0 <= i <= len && offset == start + i <= start + len <= |data| && trace == old(trace)
        invariant AllText(data, start, offset)
        invariant TextScan(data, start, len) == TextScan(data, offset, len - i)
        invariant s == AsText(data[start..offset])
      {
        var chr := data[offset];
        offset := offset + 1;
        if !TextByte(chr) {
          return Failed(InvalidDate);
        }
        s := s + [chr as char];
        i := i + 1;
      }
      trace := trace + [UtcTime(s)];
      return Consumed(offset);
    }

    /** `dec_sequence(len)`. */
    method DecSequence(len: u64) returns (st: Status)
      requires Valid()
      modifies this
      decreases |data| - offset, 2
      ensures Valid()
      ensures var s := ContentStep(data, TagSequence, old(offset), len);
        trace == old(trace) + s.events && st == s.status
      ensures st.Consumed? ==> offset == st.next
      ensures old(offset) <= offset
    {
      trace := trace + [SequenceStart];
      st := DecAsn1(len);
      if st.Consumed? {
        trace := trace + [SequenceEnd];
      }
    }

    /** `dec_set(len)`. */
    method DecSet(len: u64) returns (st: Status)
      requires Valid()
      modifies this
      decreases |data| - offset, 2
      ensures Valid()
      ensures var s := ContentStep(data, TagSet, old(offset), len);
        trace == old(trace) + s.events && st == s.status
      ensures st.Consumed? ==> offset == st.next
      ensures old(offset) <= offset
    {
      trace := trace + [SetStart];
      st := DecAsn1(len);
      if st.Consumed? {
        trace := trace + [SetEnd];
      }
    }

    /** The `switch` of `dec_asn1` on the masked type, with the cursor on
        the content; an unmatched type is "unknown type". */
    method DecContent(typ: byte, len: u64) returns (st: Status)
      requires Valid()
      modifies this
      decreases |data| - offset, 3
      ensures Valid()
      ensures var s := ContentStep(data, typ, old(offset), len);
        trace == old(trace) + s.events && st == s.status
      ensures st.Consumed? ==> offset == st.next
      ensures old(offset) <= offset
    {
      if typ == TagNull {
        st := DecNull(len);
      } else if typ == TagBitString {
        st := DecBitString(len);
      } else if typ == TagOid {
        st := DecOid(len);
      } else if typ == TagPrintableString {
        st := DecPrintableString(len);
      } else if typ == TagUtcTime {
        st := DecUtcTime(len);
      } else if typ == TagInteger {
        st := DecInteger(len);
      } else if typ == TagConstructed {
        trace := trace + [ConstructedStart];
        st := Consumed(offset);
      } else if typ == TagSequence {
        st := DecSequence(len);
      } else if typ == TagSet {
        st := DecSet(len);
      } else {
        st := Failed(UnknownType);
      }
    }

    /** One turn of the loop of `dec_asn1`: the tag byte, split into class
        (kept but unused) and type, the length, then the content. */
    method DecElement() returns (st: Status)
      requires Valid()
      modifies this
      decreases |data| - offset, 0
      ensures Valid()
      ensures var s := ElementStep(data, old(offset));
        trace == old(trace) + s.events && st == s.status
      ensures st.Consumed? ==> offset == st.next
      ensures old(offset) <= offset
    {
      var ok := ChkLen(1);
      if !ok {
        return Failed(DataTruncated);
      }
      ghost var elemStart := offset;
      var typ := data[offset];
      offset := offset + 1;
      var tagClass := TagClass(typ);
      typ := TagType(typ);
      var r := DecLen();
      if r.LengthError? {
        return Failed(r.error);
      }
      ElementUnfold(data, elemStart);
      st := DecContent(typ, r.value);
    }

    /** `dec_asn1(len)`: elements until `len` bytes are consumed, then the
        check that exactly `len` were. */
    method DecAsn1(len: u64) returns (st: Status)
      requires Valid()
      modifies this
      decreases |data| - offset, 1
      ensures Valid()
      ensures var s := ElementsStep(data, old(offset), old(offset), len);
        trace == old(trace) + s.events && st == s.status
      ensures st.Consumed? ==> offset == st.next
      ensures old(offset) <= offset
    {
      var startOffset := offset;
      ghost var done: seq<Event> := [];
      while offset - startOffset < len
        invariant Valid() && startOffset <= offset
        invariant trace == old(trace) + done
        invariant ElementsStep(data, startOffset, startOffset, len) == Then(done, ElementsStep(data, startOffset, offset, len))
        decreases |data| - offset
      {
        ghost var elemStart := offset;
        ElementsUnfold(data, startOffset, elemStart, len);
        ghost var e := ElementStep(data, elemStart);
        var est := DecElement();
        ConcatAssoc(old(trace), done, e.events);
        if est.Failed? {
          return est;
        }
        ThenAssoc(done, e.events, ElementsStep(data, startOffset, offset, len));
        done := done + e.events;
      }
      ElementsExit(data, startOffset, offset, len);
      if offset - startOffset != len {
        return Failed(ElementsTooBig);
      }
      return Consumed(offset);
    }

    /** `dec()`: the whole buffer as one run of elements. */
    method Dec() returns (st: Status)
      requires Valid()
      modifies this
      ensures Valid()
      ensures var s := ElementsStep(data, old(offset), old(offset), |data|);
        trace == old(trace) + s.events && st == s.status
      ensures st.Consumed? ==> offset == st.next
      ensures old(offset) <= offset
      ensures old(offset) == 0 ==> trace == old(trace) + Decode(data).events && st == Decode(data).status
    {
      st := DecAsn1(|data|);
    }
  }
}
