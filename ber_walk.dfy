/** The element walk of `Decoder::dec_asn1`: tag, length, then the content
    handler the masked tag selects, repeated until the declared length is
    reached, with SEQUENCE and SET walking their content the same way
    between a start and an end callback. */
module BerWalk {
  import opened Bits
  import opened BerTypes
  import opened BerLength
  import opened BerInteger
  import opened BerNull
  import opened BerBitString
  import opened BerOid
  import opened BerText

  /** `type &= ~0xc0`: the tag with its two class bits cleared; the
      constructed bit 0x20 and the tag number stay. */
  function TagType(t: byte): byte
  {
    BitAnd(t, 0x3F)
  }

  /** `(type & 0xc0) >> 6`: computed by the decoder and never used. */
  function TagClass(t: byte): nat
  {
    Shr(BitAnd(t, 0xC0), 6)
  }

  /** A tag splits into its class, 0 to 3, and the masked type that the
      dispatch looks at, which is the tag modulo 64: context-specific,
      application and private tags alias universal ones. */
  lemma TagParts(t: byte)
    ensures TagType(t) == t % 64
    ensures TagClass(t) == t / 64 && TagClass(t) < 4
    ensures t == TagClass(t) * 64 + TagType(t)
  {
    LowMask(t, 6);
    Pow2Of64();
    assert Pow2(6) == 64;
    ClearLow(t, 8, 6);
    DivModUnique(t / 64 * 64, 64, t / 64, 0);
  }

  /** SEQUENCE or SET: `start`, the callbacks of the content walk and, when
      that walk returns normally, `end`. */
  function Enclose(start: Event, end: Event, inner: Step): (r: Step)
    ensures r.status == inner.status
  {
    if inner.status.Consumed? then Step([start] + inner.events + [end], inner.status)
    else Step([start] + inner.events, inner.status)
  }

  /** One element from `off`: its tag byte, its length octets, then its
      content from `p`. */
  function ElementStep(data: seq<byte>, off: nat): (r: Step)
    requires off <= |data|
    ensures r.status.Consumed? ==> off + 2 <= r.status.next <= |data|
    decreases |data| - off, 0
  {
    if |data| - off < 1 then Step([], Failed(DataTruncated))
    else
      var typ := TagType(data[off]);
      match LengthStep(data, off + 1)
      case LengthError(e) => Step([], Failed(e))
      case Length(len, p) => ContentStep(data, typ, p, len)
  }

  /** The `switch` on the masked type. A constructed tag other than SEQUENCE
      and SET only reports ConstructedStart and leaves the cursor on its
      content, which is then walked as following elements. */
  function ContentStep(data: seq<byte>, typ: byte, p: nat, len: u64): (r: Step)
    requires p <= |data|
    ensures r.status.Consumed? ==> p <= r.status.next <= |data|
    decreases |data| - p, 2
  {
    if typ == TagNull then NullStep(data, p, len)
    else if typ == TagBitString then BitStringStep(data, p, len)
    else if typ == TagOid then OidStep(data, p, len)
    else if typ == TagPrintableString then PrintableStringStep(data, p, len)
    else if typ == TagUtcTime then UtcTimeStep(data, p, len)
    else if typ == TagInteger then IntegerStep(data, p, len)
    else if typ == TagConstructed then Step([ConstructedStart], Consumed(p))
    else if typ == TagSequence then Enclose(SequenceStart, SequenceEnd, ElementsStep(data, p, p, len))
    else if typ == TagSet then Enclose(SetStart, SetEnd, ElementsStep(data, p, p, len))
    else Step([], Failed(UnknownType))
  }

  /** The `while` loop of `dec_asn1(len)` begun at `start`, with the cursor
      now at `off`: elements are read while fewer than `len` bytes have
      been consumed, and then exactly `len` must have been. */
  function ElementsStep(data: seq<byte>, start: nat, off: nat, len: u64): (r: Step)
    requires start <= off <= |data|
    ensures r.status.Consumed? ==> r.status.next == start + len && off <= r.status.next <= |data|
    decreases |data| - off, 1
  {
    if off - start < len then
      var s := ElementStep(data, off);
      match s.status
      case Failed(_) => s
      case Consumed(n) => Then(s.events, ElementsStep(data, start, n, len))
    else if off - start == len then Step([], Consumed(off))
    else Step([], Failed(ElementsTooBig))
  }

  /** `dec()`: the whole buffer is one run of elements. */
  function Decode(data: seq<byte>): (r: Step)
    requires |data| < 0x1_0000_0000_0000_0000
    ensures r.status.Consumed? ==> r.status.next == |data|
  {
    ElementsStep(data, 0, 0, |data|)
  }

  /** The dispatch sees the tag modulo 64, so the class bits change nothing. */
  lemma ElementDispatch(data: seq<byte>, off: nat)
    requires off < |data|
    ensures ElementStep(data, off) ==
      match LengthStep(data, off + 1)
      case LengthError(e) => Step([], Failed(e))
      case Length(len, p) => ContentStep(data, data[off] % 64, p, len)
  {
    TagParts(data[off]);
  }

  /** A masked type with no case, OCTET STRING and UTF8String among them,
      is refused after its length is read. */
  lemma UnknownTypeRefused(data: seq<byte>, typ: byte, p: nat, len: u64)
    requires p <= |data|
    requires typ !in {TagNull, TagBitString, TagOid, TagPrintableString, TagUtcTime,
                      TagInteger, TagConstructed, TagSequence, TagSet}
    ensures ContentStep(data, typ, p, len) == Step([], Failed(UnknownType))
  {
  }

  /** An element that ends past the enclosing length is reported, and then
      the walk fails with "element(s) were too big". */
  lemma Overshoot(data: seq<byte>, start: nat, off: nat, len: u64)
    requires start <= off <= |data| && off - start < len
    requires ElementStep(data, off).status.Consumed?
    requires ElementStep(data, off).status.next - start > len
    ensures ElementsStep(data, start, off, len) == Step(ElementStep(data, off).events, Failed(ElementsTooBig))
  {
    var n := ElementStep(data, off).status.next;
    assert ElementsStep(data, start, n, len) == Step([], Failed(ElementsTooBig));
  }

  /** An open SEQUENCE or SET. */
  datatype Frame = InSequence | InSet

  datatype Nesting = Nested(open: seq<Frame>) | Unbalanced

  /** The frames open after `events`, starting from `stack`, or Unbalanced
      when an end does not match the innermost open start. */
  function Nest(stack: seq<Frame>, events: seq<Event>): Nesting
    decreases |events|
  {
    if events == [] then Nested(stack)
    else
      var e := events[0];
      if e == SequenceStart then Nest(stack + [InSequence], events[1..])
      else if e == SetStart then Nest(stack + [InSet], events[1..])
      else if e == SequenceEnd || e == SetEnd then
        var f := if e == SequenceEnd then InSequence else InSet;
        if |stack| > 0 && stack[|stack| - 1] == f then Nest(stack[..|stack| - 1], events[1..])
        else Unbalanced
      else Nest(stack, events[1..])
  }

  predicate Bracket(e: Event)
  {
    e == SequenceStart || e == SequenceEnd || e == SetStart || e == SetEnd
  }

  lemma {:induction false} NestAppend(stack: seq<Frame>, a: seq<Event>, b: seq<Event>)
    decreases |a|
    ensures Nest(stack, a + b) ==
      match Nest(stack, a)
      case Unbalanced => Unbalanced
      case Nested(s) => Nest(s, b)
  {
    if a != [] {
      assert (a + b)[0] == a[0] && (a + b)[1..] == a[1..] + b;
      var e := a[0];
      if e == SequenceStart {
        NestAppend(stack + [InSequence], a[1..], b);
      } else if e == SetStart {
        NestAppend(stack + [InSet], a[1..], b);
      } else if e == SequenceEnd || e == SetEnd {
        if |stack| > 0 {
          NestAppend(stack[..|stack| - 1], a[1..], b);
        }
      } else {
        NestAppend(stack, a[1..], b);
      }
    } else {
      assert a + b == b;
    }
  }

  lemma {:induction false} NestLeaves(stack: seq<Frame>, events: seq<Event>)
    requires forall i :: 0 <= i < |events| ==> !Bracket(events[i])
    decreases |events|
    ensures Nest(stack, events) == Nested(stack)
  {
    if events != [] {
      NestLeaves(stack, events[1..]);
    }
  }

  /** The callbacks of any element never end a frame they did not start,
      and when the element is decoded completely they close every frame
      they open. */
  lemma {:induction false} ElementNested(data: seq<byte>, off: nat, stack: seq<Frame>)
    requires off <= |data|
    decreases |data| - off, 0
    ensures var s := ElementStep(data, off);
      && Nest(stack, s.events).Nested?
      && stack <= Nest(stack, s.events).open
      && (s.status.Consumed? ==> Nest(stack, s.events) == Nested(stack))
  {
    if off < |data| {
      match LengthStep(data, off + 1)
      case LengthError(e) =>
      case Length(len, p) => ContentNested(data, TagType(data[off]), p, len, stack);
    }
  }

  lemma {:induction false} ContentNested(data: seq<byte>, typ: byte, p: nat, len: u64, stack: seq<Frame>)
    requires p <= |data|
    decreases |data| - p, 2
    ensures var s := ContentStep(data, typ, p, len);
      && Nest(stack, s.events).Nested?
      && stack <= Nest(stack, s.events).open
      && (s.status.Consumed? ==> Nest(stack, s.events) == Nested(stack))
  {
    if typ == TagSequence {
      ElementsNested(data, p, p, len, stack + [InSequence]);
      EncloseNested(SequenceStart, SequenceEnd, InSequence, ElementsStep(data, p, p, len), stack);
    } else if typ == TagSet {
      ElementsNested(data, p, p, len, stack + [InSet]);
      EncloseNested(SetStart, SetEnd, InSet, ElementsStep(data, p, p, len), stack);
    } else {
      LeafEvents(data, typ, p, len);
      NestLeaves(stack, ContentStep(data, typ, p, len).events);
    }
  }

  /** Wrapping a walk that keeps the nesting in a matching start and end
      keeps it too. */
  lemma EncloseNested(start: Event, end: Event, frame: Frame, inner: Step, stack: seq<Frame>)
    requires (start, end, frame) == (SequenceStart, SequenceEnd, InSequence) ||
             (start, end, frame) == (SetStart, SetEnd, InSet)
    requires Nest(stack + [frame], inner.events).Nested?
    requires stack + [frame] <= Nest(stack + [frame], inner.events).open
    requires inner.status.Consumed? ==> Nest(stack + [frame], inner.events) == Nested(stack + [frame])
    ensures var s := Enclose(start, end, inner);
      && Nest(stack, s.events).Nested?
      && stack <= Nest(stack, s.events).open
      && (s.status.Consumed? ==> Nest(stack, s.events) == Nested(stack))
  {
    NestAppend(stack, [start], inner.events);
    assert Nest(stack, [start]) == Nested(stack + [frame]);
    if inner.status.Consumed? {
      NestAppend(stack, [start] + inner.events, [end]);
      assert (stack + [frame])[..|stack|] == stack;
      assert Nest(stack + [frame], [end]) == Nest(stack, []);
    }
  }

  /** The handlers other than SEQUENCE and SET report at most one callback,
      and never a start or end. */
  lemma LeafEvents(data: seq<byte>, typ: byte, p: nat, len: u64)
    requires p <= |data| && typ != TagSequence && typ != TagSet
    ensures var s := ContentStep(data, typ, p, len);
      |s.events| <= 1 && forall i :: 0 <= i < |s.events| ==> !Bracket(s.events[i])
  {
  }

  lemma {:induction false} ElementsNested(data: seq<byte>, start: nat, off: nat, len: u64, stack: seq<Frame>)
    requires start <= off <= |data|
    decreases |data| - off, 1
    ensures var s := ElementsStep(data, start, off, len);
      && Nest(stack, s.events).Nested?
      && stack <= Nest(stack, s.events).open
      && (s.status.Consumed? ==> Nest(stack, s.events) == Nested(stack))
  {
    if off - start < len {
      var s := ElementStep(data, off);
      ElementNested(data, off, stack);
      if s.status.Consumed? {
        var n := s.status.next;
        ElementsNested(data, start, n, len, stack);
        NestAppend(stack, s.events, ElementsStep(data, start, n, len).events);
      }
    }
  }

  /** A buffer that decodes completely gives a trace in which every
      SequenceStart and SetStart is matched by its own end, properly nested;
      one that fails gives a prefix of such a trace. */
  lemma DecodeNested(data: seq<byte>)
    requires |data| < 0x1_0000_0000_0000_0000
    ensures Nest([], Decode(data).events).Nested?
    ensures Decode(data).status.Consumed? ==> Nest([], Decode(data).events) == Nested([])
  {
    ElementsNested(data, 0, 0, |data|, []);
  }

  /** `30 03 02 01 05`: a SEQUENCE holding the INTEGER 5. */
  lemma SequenceExample()
    ensures Decode([0x30, 0x03, 0x02, 0x01, 0x05]) ==
      Step([SequenceStart, Integer([0x05], false), SequenceEnd], Consumed(5))
  {
    var data: seq<byte> := [0x30, 0x03, 0x02, 0x01, 0x05];
    TagParts(0x30);
    assert LengthStep(data, 1) == Length(3, 2);
    FiveInside();
    assert ElementsStep(data, 2, 2, 3) == Step([Integer([0x05], false)], Consumed(5));
    assert ElementStep(data, 0) == Step([SequenceStart, Integer([0x05], false), SequenceEnd], Consumed(5));
  }

  lemma FiveInside()
    ensures ElementStep([0x30, 0x03, 0x02, 0x01, 0x05], 2) == Step([Integer([0x05], false)], Consumed(5))
  {
    var data: seq<byte> := [0x30, 0x03, 0x02, 0x01, 0x05];
    TagParts(0x02);
    assert data[4..5] == [0x05];
    assert LengthStep(data, 3) == Length(1, 4);
  }

  /** `30 03 02 02 05 00`: the INTEGER inside claims two bytes and so ends
      one byte past the SEQUENCE; it is still reported, and then the walk
      of the SEQUENCE fails. */
  lemma TooBigExample()
    ensures Decode([0x30, 0x03, 0x02, 0x02, 0x05, 0x00]) ==
      Step([SequenceStart, Integer([0x05, 0x00], false)], Failed(ElementsTooBig))
  {
    var data: seq<byte> := [0x30, 0x03, 0x02, 0x02, 0x05, 0x00];
    TagParts(0x30);
    TagParts(0x02);
    assert data[4..6] == [0x05, 0x00];
    assert LengthStep(data, 1) == Length(3, 2);
    assert LengthStep(data, 3) == Length(2, 4);
    assert ElementStep(data, 2) == Step([Integer([0x05, 0x00], false)], Consumed(6));
    Overshoot(data, 2, 2, 3);
    assert ElementStep(data, 0) == Step([SequenceStart, Integer([0x05, 0x00], false)], Failed(ElementsTooBig));
  }

  /** `02 00`: an INTEGER with no content octets is accepted and reported
      with an empty magnitude. */
  lemma EmptyIntegerExample()
    ensures Decode([0x02, 0x00]) == Step([Integer([], false)], Consumed(2))
  {
    var data: seq<byte> := [0x02, 0x00];
    TagParts(0x02);
    assert LengthStep(data, 1) == Length(0, 2);
    assert data[2..2] == [];
    assert ElementStep(data, 0) == Step([Integer([], false)], Consumed(2));
  }

  /** `05 01 00`: a NULL with one zero content octet is accepted, and the
      octet is consumed. */
  lemma NullContentExample()
    ensures Decode([0x05, 0x01, 0x00]) == Step([Null], Consumed(3))
  {
    var data: seq<byte> := [0x05, 0x01, 0x00];
    TagParts(0x05);
    assert LengthStep(data, 1) == Length(1, 2);
    assert ElementStep(data, 0) == Step([Null], Consumed(3));
  }

  /** `03 01 09`: a BIT STRING that claims nine unused bits in no bytes at
      all is accepted and reported as empty. */
  lemma UnusedOverflowExample()
    ensures Decode([0x03, 0x01, 0x09]) == Step([BitString([])], Consumed(3))
  {
    var data: seq<byte> := [0x03, 0x01, 0x09];
    TagParts(0x03);
    assert LengthStep(data, 1) == Length(1, 2);
    assert data[3..3] == [];
    assert ElementStep(data, 0) == Step([BitString([])], Consumed(3));
  }
}
